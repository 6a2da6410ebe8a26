/**
 * The app component's state and its event handlers. Each handler assigns the
 * state fields; the lists it stores are computed by the functions of TaskList.
 */
module AppState {
  import opened Tasks
  import opened TaskList
  import opened Form
  import opened Details
  import opened Text
  import opened Sequences

  class App {
    var todos: seq<Task>
    var selectedTodoId: Option<TaskId>
    var search: string
    var filter: FilterMode
    var showForm: bool
    var editingTodo: Option<Task>

    /** Start-up: the decoded stored list when there is one, else an empty store. */
    constructor (stored: Option<seq<Task>>)
      ensures todos == (if stored.Some? then stored.value else [])
      ensures selectedTodoId == None && search == "" && filter == All
      ensures !showForm && editingTodo == None
    {
      todos := if stored.Some? then stored.value else [];
      selectedTodoId := None;
      search := "";
      filter := All;
      showForm := false;
      editingTodo := None;
    }

    /** The task pane's list at evaluation time `now`: some of the stored tasks, in store order. */
    function Visible(now: Timestamp): (r: seq<Task>)
      reads this
      ensures IsSubsequence(r, todos)
    {
      FilteredIsSubsequence(todos, filter, search, now);
      FilteredTodos(todos, filter, search, now)
    }

    /** The details pane's task at evaluation time `now`: always a stored task. */
    function Selected(now: Timestamp): (r: Option<Task>)
      reads this
      ensures r.Some? ==> r.value in todos
    {
      SelectedIsInStore(todos, selectedTodoId, filter, search, now);
      SelectedTodo(todos, selectedTodoId, FilteredTodos(todos, filter, search, now))
    }

    /**
     * Deleting asks first. Declined: nothing changes. Accepted: the tasks with
     * the id leave the store, and the selection is cleared exactly when it was
     * that id.
     */
    method HandleDelete(todoId: TaskId, confirmed: bool)
      modifies this
      ensures todos == (if confirmed then Removed(old(todos), todoId) else old(todos))
      ensures selectedTodoId == (if confirmed && old(selectedTodoId) == Some(todoId) then None else old(selectedTodoId))
      ensures search == old(search) && filter == old(filter)
      ensures showForm == old(showForm) && editingTodo == old(editingTodo)
    {
      if !confirmed {
        return;
      }
      todos := Removed(todos, todoId);
      if selectedTodoId == Some(todoId) {
        selectedTodoId := None;
      }
    }

    method HandleToggleComplete(todoId: TaskId)
      modifies this
      ensures todos == Toggled(old(todos), todoId)
      ensures selectedTodoId == old(selectedTodoId) && search == old(search) && filter == old(filter)
      ensures showForm == old(showForm) && editingTodo == old(editingTodo)
    {
      todos := Toggled(todos, todoId);
    }

    /**
     * Saving the form's record: when editing, the tasks with the edited id are
     * replaced by it; otherwise a new task with `freshId`, stamped `now` and not
     * completed, goes in front. Either way the form closes.
     */
    method HandleSave(values: Submission, now: Timestamp, freshId: TaskId)
      requires editingTodo.Some? ==> values.id.Some? && values.createdAt.Some?
      modifies this
      ensures old(editingTodo).Some? ==> todos == Edited(old(todos), old(editingTodo).value.id, values)
      ensures old(editingTodo).None? ==> todos == Created(old(todos), values, freshId, now)
      ensures !showForm && editingTodo == None
      ensures selectedTodoId == old(selectedTodoId) && search == old(search) && filter == old(filter)
    {
      if editingTodo.Some? {
        todos := Edited(todos, editingTodo.value.id, values);
      } else {
        todos := Created(todos, values, freshId, now);
      }
      showForm := false;
      editingTodo := None;
    }

    /** The note goes to the task the details pane shows; with nothing shown, nothing changes. */
    method HandleAddNote(noteText: string, now: Timestamp)
      modifies this
      ensures var sel := old(Selected(now));
        todos == WithNote(old(todos), if sel.Some? then Some(sel.value.id) else None, noteText)
      ensures old(Selected(now)).None? ==> todos == old(todos)
      ensures selectedTodoId == old(selectedTodoId) && search == old(search) && filter == old(filter)
      ensures showForm == old(showForm) && editingTodo == old(editingTodo)
    {
      var sel := Selected(now);
      if sel.None? {
        return;
      }
      todos := WithNote(todos, Some(sel.value.id), noteText);
    }

    method HandleSearchChange(text: string)
      modifies this
      ensures search == text
      ensures todos == old(todos) && selectedTodoId == old(selectedTodoId) && filter == old(filter)
      ensures showForm == old(showForm) && editingTodo == old(editingTodo)
    {
      search := text;
    }

    method HandleFilterChange(mode: FilterMode)
      modifies this
      ensures filter == mode
      ensures todos == old(todos) && selectedTodoId == old(selectedTodoId) && search == old(search)
      ensures showForm == old(showForm) && editingTodo == old(editingTodo)
    {
      filter := mode;
    }

    /** Remembering a task id; it is not checked against the list. */
    method HandleSelectTodo(todoId: TaskId)
      modifies this
      ensures selectedTodoId == Some(todoId)
      ensures todos == old(todos) && search == old(search) && filter == old(filter)
      ensures showForm == old(showForm) && editingTodo == old(editingTodo)
    {
      selectedTodoId := Some(todoId);
    }

    /** "+ Add Task": open the form with nothing to edit. */
    method HandleAddNew()
      modifies this
      ensures showForm && editingTodo == None
      ensures todos == old(todos) && selectedTodoId == old(selectedTodoId)
      ensures search == old(search) && filter == old(filter)
    {
      showForm := true;
      editingTodo := None;
    }

    /** "Edit": open the form on a snapshot of the task. */
    method HandleEdit(todo: Task)
      modifies this
      ensures showForm && editingTodo == Some(todo)
      ensures todos == old(todos) && selectedTodoId == old(selectedTodoId)
      ensures search == old(search) && filter == old(filter)
    {
      showForm := true;
      editingTodo := Some(todo);
    }

    /** The form's "Cancel": close it and forget the edit target. */
    method HandleCancelForm()
      modifies this
      ensures !showForm && editingTodo == None
      ensures todos == old(todos) && selectedTodoId == old(selectedTodoId)
      ensures search == old(search) && filter == old(filter)
    {
      showForm := false;
      editingTodo := None;
    }

    /**
     * The form's submit wired to `HandleSave`, the form's `initial` being the
     * current edit target. A rejected title leaves the app and the form as they
     * were.
     */
    method SubmitForm(form: TodoForm, now: Timestamp, freshId: TaskId) returns (outcome: SubmitOutcome)
      modifies this, form
      ensures outcome == Submit(old(form.title), old(form.reminder), old(form.notes), old(editingTodo))
      ensures outcome.EmptyTitle? ==>
        && todos == old(todos) && showForm == old(showForm) && editingTodo == old(editingTodo)
        && form.title == old(form.title) && form.reminder == old(form.reminder) && form.notes == old(form.notes)
      ensures outcome.Save? && old(editingTodo).Some? ==>
        todos == Edited(old(todos), old(editingTodo).value.id, outcome.values)
      ensures outcome.Save? && old(editingTodo).None? ==>
        todos == Created(old(todos), outcome.values, freshId, now)
      ensures outcome.Save? ==> !showForm && editingTodo == None
      ensures outcome.Save? ==> form.title == "" && form.reminder == None && form.notes == ""
      ensures selectedTodoId == old(selectedTodoId) && search == old(search) && filter == old(filter)
    {
      outcome := form.HandleSubmit(editingTodo);
      if outcome.Save? {
        HandleSave(outcome.values, now, freshId);
      }
    }

    /** The details pane's "Save" wired to `HandleAddNote`. */
    method SaveNote(details: TodoDetails, now: Timestamp)
      requires details.editingNote
      modifies this, details
      ensures var sel := old(Selected(now));
        todos == WithNote(old(todos), if sel.Some? then Some(sel.value.id) else None, old(details.noteDraft))
      ensures !details.editingNote
      ensures details.noteDraft == old(details.noteDraft) && details.shownId == old(details.shownId)
      ensures selectedTodoId == old(selectedTodoId) && search == old(search) && filter == old(filter)
      ensures showForm == old(showForm) && editingTodo == old(editingTodo)
    {
      var text := details.HandleNoteSave();
      HandleAddNote(text, now);
    }
  }

  /**
   * Adding "Buy milk" through the form gives a one-task store with the task not
   * completed; toggling it and switching to the `Completed` view shows exactly
   * that task, now completed; deleting it with the confirmation accepted empties
   * the store.
   */
  method BuyMilkScenario(now: Timestamp, freshId: TaskId) returns (added: seq<Task>, completedView: seq<Task>, remaining: seq<Task>)
    ensures added == [Task(freshId, "Buy milk", "", None, false, now)]
    ensures completedView == [Task(freshId, "Buy milk", "", None, true, now)]
    ensures remaining == []
  {
    var app := new App(None);
    app.HandleAddNew();
    var form := new TodoForm(app.editingTodo);
    form.SetTitle("Buy milk");
    BuyMilkIsTrimmed();
    var outcome := app.SubmitForm(form, now, freshId);
    added := app.todos;
    app.HandleToggleComplete(freshId);
    app.HandleFilterChange(Completed);
    completedView := app.Visible(now);
    app.HandleDelete(freshId, true);
    remaining := app.todos;
  }

  /** The title typed in the scenario survives trimming, and the empty notes stay empty. */
  lemma BuyMilkIsTrimmed()
    ensures Trim("Buy milk") == "Buy milk" && Trim("") == ""
  {
    assert SkipLeading("Buy milk", 0) == 0;
    assert SkipTrailing("Buy milk", 0, 8) == 8;
    assert "Buy milk"[0..8] == "Buy milk";
  }

  /**
   * Editing a stored task and submitting a blank title is rejected: the store
   * keeps the task as it was and the form stays open on it.
   */
  method BlankEditScenario(e: Task) returns (outcome: SubmitOutcome, stored: seq<Task>, formOpen: bool)
    ensures outcome == EmptyTitle
    ensures stored == [e] && formOpen
  {
    var app := new App(Some([e]));
    app.HandleEdit(e);
    var form := new TodoForm(app.editingTodo);
    form.SetTitle("  ");
    assert AllWhitespace("  ") by { assert IsJsWhitespace("  "[0]) && IsJsWhitespace("  "[1]); }
    outcome := app.SubmitForm(form, 0, "unused");
    stored := app.todos;
    formOpen := app.showForm;
  }
}
