/**
 * The to-do manager's store and reminder queue: the `tasks` table with its
 * AUTOINCREMENT counter, the currently selected row, and the queue the
 * reminder poll fills and the display loop drains. Every write the
 * buttons and the context menu trigger, and the selecting and clearing of
 * the form, is a method here; widgets, dialogs and the database
 * connection are not.
 */
module App {
  import opened Wrappers
  import opened PyText
  import opened TaskTable

  /** How a user action ended. `Done` covers an UPDATE or DELETE whose
      `WHERE id = ?` matched no row: the code does not look at the count. */
  datatype Outcome =
    | Done
    | NoSelection   // no row selected: the handler returns at once
    | EmptyTitle    // "Title cannot be empty": nothing is written
    | Declined      // the deletion dialog was answered No
    | RowMissing    // `fetchone()` found no row; the handler raises before writing

  /** What every write path stores: a non-empty, stripped title, a stripped
      description and a 0/1 reminder flag. */
  predicate WellFormed(t: Task) {
    t.title != [] && IsStripped(t.title) && IsStripped(t.description)
    && (t.reminder == 0 || t.reminder == 1)
  }

  /** The row the form describes, as `add_task` and `update_task` build it:
      title and description stripped, deadline and status as given, the
      checkbox stored as 1 or 0. Whenever the title is not blank, the row
      keeps the store's invariant. */
  function FormRow(title: string, description: string, deadline: string, status: string, reminderChecked: bool): (t: Task)
    ensures !IsBlank(title) ==> WellFormed(t)
    ensures t.title == Strip(title) && t.description == Strip(description)
    ensures t.deadline == deadline && t.status == status
    ensures t.reminder == 1 <==> reminderChecked
  {
    Task(Strip(title), Strip(description), deadline, status, ReminderFlag(reminderChecked))
  }

  /** The editable fields of the form: title, description, status and the
      reminder checkbox. The deadline picker is not part of this model. */
  datatype Form = Form(title: string, description: string, status: string, reminderChecked: bool)

  /** What selecting a list line puts in the form (`on_task_select`): the
      shown title, description and status, and the checkbox ticked exactly
      when the reminder column reads "Yes". */
  function FormOf(row: DisplayRow): Form {
    Form(row.title, row.description, row.status, ReminderChecked(row.reminder))
  }

  /** Selecting a stored row and pressing Update without editing writes the
      row back unchanged: the form is accepted (its title is not blank),
      stripping changes nothing, and the Yes/No round trip restores the
      0/1 flag. */
  lemma UnchangedFormKeepsRow(id: int, t: Task, today: string)
    requires WellFormed(t)
    ensures !IsBlank(FormOf(Rendered(id, t, today)).title)
    ensures var f := FormOf(Rendered(id, t, today));
      FormRow(f.title, f.description, t.deadline, f.status, f.reminderChecked) == t
  {
    StripFixedPoints(t.title);
    StripFixedPoints(t.description);
    ReminderLabelRoundTrip(t.reminder);
  }

  /** What the store keeps true between actions: the AUTOINCREMENT counter
      is at least every id ever issued, the live rows are a subset of the
      issued ids, and every stored row is well formed. */
  ghost predicate StoreInvariant(tbl: Table, lastId: int, issued: set<int>) {
    0 <= lastId
    && (forall id :: id in issued ==> 1 <= id <= lastId)
    && tbl.Keys <= issued
    && (forall id :: id in tbl ==> WellFormed(tbl[id]))
  }

  /** Inserting a well-formed row under the next counter value keeps the
      invariant; that id was never issued before and is above every issued
      id, so (`ScanOrderInsert`) the new row is scanned last. */
  lemma InsertKeeps(tbl: Table, lastId: int, issued: set<int>, row: Task)
    requires StoreInvariant(tbl, lastId, issued) && WellFormed(row)
    ensures StoreInvariant(tbl[lastId + 1 := row], lastId + 1, issued + {lastId + 1})
    ensures lastId + 1 !in issued && forall k :: k in issued ==> k < lastId + 1
  {
    var n := lastId + 1;
    var next := tbl[n := row];
    forall id | id in next ensures WellFormed(next[id]) {
      if id != n {
        assert next[id] == tbl[id];
      }
    }
    assert forall id :: id in issued + {n} ==> 1 <= id <= n;
    assert next.Keys <= issued + {n};
  }

  /** Overwriting a row with a well-formed one, or removing it, keeps the
      invariant. */
  lemma ReplaceKeeps(tbl: Table, lastId: int, issued: set<int>, id: int, row: Task)
    requires StoreInvariant(tbl, lastId, issued) && id in tbl && WellFormed(row)
    ensures StoreInvariant(tbl[id := row], lastId, issued)
    ensures StoreInvariant(tbl - {id}, lastId, issued)
  {
  }

  /** The loop of `load_tasks` over the fetched rows: line `i` of the list
      shows row `ids[i]` with its Yes/No reminder and its tag. */
  method RenderLines(tbl: Table, ids: seq<int>, today: string) returns (rows: seq<DisplayRow>)
    requires forall i :: 0 <= i < |ids| ==> ids[i] in tbl
    ensures |rows| == |ids|
    ensures forall i :: 0 <= i < |ids| ==> rows[i] == Rendered(ids[i], tbl[ids[i]], today)
  {
    rows := [];
    var i := 0;
    while i < |ids|
      invariant 0 <= i <= |ids| && |rows| == i
      invariant forall j :: 0 <= j < i ==> rows[j] == Rendered(ids[j], tbl[ids[j]], today)
    {
      rows := rows + [Rendered(ids[i], tbl[ids[i]], today)];
      i := i + 1;
    }
  }

  class TodoApp {
    /** The `tasks` table. */
    var tasks: Table
    /** The table's entry in `sqlite_sequence`: the largest id ever issued. */
    var lastId: int
    /** `selected_task_id`: the row the form and the buttons act on. */
    var selectedId: Option<int>
    /** `reminder_queue`: titles waiting to be shown, oldest first. */
    var reminderQueue: seq<string>
    /** The ids this store has held, deleted or not. */
    ghost var issued: set<int>

    ghost predicate Valid()
      reads this
    {
      StoreInvariant(tasks, lastId, issued)
    }

    /** Opens the store on the rows already in the database file (none on
        first run) with nothing selected and an empty queue. */
    constructor (stored: Table, storedLastId: int)
      requires 0 <= storedLastId
      requires forall id :: id in stored ==> 1 <= id <= storedLastId && WellFormed(stored[id])
      ensures Valid()
      ensures tasks == stored && lastId == storedLastId
      ensures selectedId == None && reminderQueue == []
    {
      tasks := stored;
      lastId := storedLastId;
      selectedId := None;
      reminderQueue := [];
      issued := stored.Keys;
    }

    /** `on_task_select`: selecting a line of the list records its id and
        fills the form from it. */
    method Select(row: DisplayRow) returns (form: Form)
      modifies this`selectedId
      ensures selectedId == Some(row.id)
      ensures form == FormOf(row)
    {
      selectedId := Some(row.id);
      form := FormOf(row);
    }

    /** `clear_entries` (the Clear button): empties the form, sets the status
        back to Pending, unticks the box and drops the selection, so update,
        delete, status change and toggle report `NoSelection` until a line
        is selected again. */
    method ClearEntries() returns (form: Form)
      modifies this`selectedId
      ensures selectedId == None
      ensures form == Form([], [], PENDING, false)
    {
      selectedId := None;
      form := Form([], [], PENDING, false);
    }

    /** `add_task`: a blank title is refused and nothing changes; otherwise
        one row is inserted under a fresh id, larger than every id issued
        before (and so, by `ScanOrderInsert`, listed last): AUTOINCREMENT
        hands out the counter plus one and records it as the new counter.
        The selection is cleared. */
    method AddTask(title: string, description: string, deadline: string, status: string, reminderChecked: bool)
      returns (id: Option<int>)
      requires Valid()
      modifies this`tasks, this`lastId, this`selectedId, this`issued
      ensures Valid()
      ensures IsBlank(title) ==>
        id == None && tasks == old(tasks) && lastId == old(lastId)
        && issued == old(issued) && selectedId == old(selectedId)
      ensures !IsBlank(title) ==>
        && id.Some?
        && id.value == old(lastId) + 1
        && lastId == id.value
        && id.value !in old(issued)
        && (forall k :: k in old(issued) ==> k < id.value)
        && issued == old(issued) + {id.value}
        && (forall k :: k in old(tasks) ==> k < id.value)
        && tasks == old(tasks)[id.value := FormRow(title, description, deadline, status, reminderChecked)]
        && selectedId == None
    {
      if Strip(title) == [] {
        return None;
      }
      var row := FormRow(title, description, deadline, status, reminderChecked);
      var newId := lastId + 1;
      InsertKeeps(tasks, lastId, issued, row);
      tasks, lastId, issued, selectedId := tasks[newId := row], newId, issued + {newId}, None;
      id := Some(newId);
    }

    /** `update_task`: with a row selected and a non-blank title, replaces
        all five columns of that row (if it still exists) and clears the
        selection; every other row is unchanged. */
    method UpdateTask(title: string, description: string, deadline: string, status: string, reminderChecked: bool)
      returns (outcome: Outcome)
      requires Valid()
      modifies this`tasks, this`selectedId
      ensures Valid()
      ensures old(selectedId).None? ==>
        outcome == NoSelection && tasks == old(tasks) && selectedId == old(selectedId)
      ensures old(selectedId).Some? && IsBlank(title) ==>
        outcome == EmptyTitle && tasks == old(tasks) && selectedId == old(selectedId)
      ensures old(selectedId).Some? && !IsBlank(title) ==>
        var id := old(selectedId).value;
        && outcome == Done
        && selectedId == None
        && tasks == if id in old(tasks)
                    then old(tasks)[id := FormRow(title, description, deadline, status, reminderChecked)]
                    else old(tasks)
    {
      if selectedId.None? {
        return NoSelection;
      }
      if Strip(title) == [] {
        return EmptyTitle;
      }
      var id := selectedId.value;
      if id in tasks {
        tasks := tasks[id := FormRow(title, description, deadline, status, reminderChecked)];
      }
      selectedId := None;
      outcome := Done;
    }

    /** `delete_task`: with a row selected and the dialog confirmed, removes
        that row (if it still exists) and clears the selection. The id is not
        given out again. */
    method DeleteTask(confirmed: bool) returns (outcome: Outcome)
      requires Valid()
      modifies this`tasks, this`selectedId
      ensures Valid()
      ensures old(selectedId).None? ==>
        outcome == NoSelection && tasks == old(tasks) && selectedId == old(selectedId)
      ensures old(selectedId).Some? && !confirmed ==>
        outcome == Declined && tasks == old(tasks) && selectedId == old(selectedId)
      ensures old(selectedId).Some? && confirmed ==>
        outcome == Done && tasks == old(tasks) - {old(selectedId).value} && selectedId == None
    {
      if selectedId.None? {
        return NoSelection;
      }
      if !confirmed {
        return Declined;
      }
      tasks := tasks - {selectedId.value};
      selectedId := None;
      outcome := Done;
    }

    /** `change_status`: writes the status column of the selected row (if it
        exists) and nothing else; the selection stays. */
    method ChangeStatus(status: string) returns (outcome: Outcome)
      requires Valid()
      modifies this`tasks
      ensures Valid()
      ensures old(selectedId).None? ==> outcome == NoSelection && tasks == old(tasks)
      ensures old(selectedId).Some? ==>
        var id := old(selectedId).value;
        && outcome == Done
        && tasks == if id in old(tasks) then old(tasks)[id := old(tasks)[id].(status := status)] else old(tasks)
    {
      if selectedId.None? {
        return NoSelection;
      }
      var id := selectedId.value;
      if id in tasks {
        tasks := tasks[id := tasks[id].(status := status)];
      }
      outcome := Done;
    }

    /** `toggle_reminder`: reads the selected row's flag and writes back
        `0 if current == 1 else 1`. A selected id with no row makes the
        read fail before anything is written. */
    method ToggleReminder() returns (outcome: Outcome)
      requires Valid()
      modifies this`tasks
      ensures Valid()
      ensures old(selectedId).None? ==> outcome == NoSelection && tasks == old(tasks)
      ensures old(selectedId).Some? && old(selectedId).value !in old(tasks) ==>
        outcome == RowMissing && tasks == old(tasks)
      ensures old(selectedId).Some? && old(selectedId).value in old(tasks) ==>
        var id := old(selectedId).value;
        && outcome == Done
        && tasks == old(tasks)[id := old(tasks)[id].(reminder := Toggled(old(tasks)[id].reminder))]
    {
      if selectedId.None? {
        return NoSelection;
      }
      var id := selectedId.value;
      if id !in tasks {
        return RowMissing;
      }
      var current := tasks[id].reminder;
      tasks := tasks[id := tasks[id].(reminder := Toggled(current))];
      outcome := Done;
    }

    /** `load_tasks`: one display row per stored task, in scan order, each
        with its Yes/No reminder and its tag, followed by the titles the
        due-today summary lists. */
    method LoadTasks(today: string) returns (rows: seq<DisplayRow>, dueSummary: seq<string>)
      ensures |rows| == |tasks|
      ensures forall i :: 0 <= i < |rows| ==>
        var id := ScanOrder(tasks)[i];
        rows[i] == Rendered(id, tasks[id], today)
      ensures dueSummary == DueTitles(tasks, today, false)
    {
      rows := RenderLines(tasks, ScanOrder(tasks), today);
      dueSummary := DueTitles(tasks, today, false);
    }

    /** One cycle of `reminder_checker`: the titles of the rows due today
        with their reminder set are put on the queue, in scan order. */
    method ReminderCheckCycle(today: string)
      modifies this`reminderQueue
      ensures reminderQueue == old(reminderQueue) + DueTitles(tasks, today, true)
    {
      var due := DueTitles(tasks, today, true);
      Enqueue(due);
    }

    /** `reminder_queue.put` for each title in turn. */
    method Enqueue(titles: seq<string>)
      modifies this`reminderQueue
      ensures reminderQueue == old(reminderQueue) + titles
    {
      var i := 0;
      while i < |titles|
        invariant 0 <= i <= |titles|
        invariant reminderQueue == old(reminderQueue) + titles[..i]
      {
        assert titles[..i + 1] == titles[..i] + [titles[i]];
        reminderQueue := reminderQueue + [titles[i]];
        i := i + 1;
      }
      assert titles[..i] == titles;
    }

    /** `process_reminder_queue`: takes every queued title off the queue,
        oldest first, and hands it to the pop-up. */
    method DrainReminders() returns (shown: seq<string>)
      modifies this`reminderQueue
      ensures shown == old(reminderQueue)
      ensures reminderQueue == []
    {
      shown := [];
      while reminderQueue != []
        invariant shown + reminderQueue == old(reminderQueue)
        decreases |reminderQueue|
      {
        var title := reminderQueue[0];
        reminderQueue := reminderQueue[1..];
        shown := shown + [title];
      }
    }
  }
}
