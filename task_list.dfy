/**
 * The pure part of the app: the visible list derived from the store, the
 * resolution of the selected task, and the new list each handler computes.
 */
module TaskList {
  import opened Tasks
  import opened Text
  import opened Sequences

  // ---------------------------------------------------------------- visibility

  /** The task has a reminder, strictly later than `now`, and is not completed. */
  predicate IsUpcoming(t: Task, now: Timestamp) {
    t.reminder.Some? && t.reminder.value > now && !t.completed
  }

  /**
   * Case-insensitive match of the search text against the title or, when
   * present, the notes: the lowered search text sits at some position of one of
   * them.
   */
  predicate MatchesSearch(t: Task, search: string): (b: bool)
    ensures b <==> Occurs(ToLower(t.title), ToLower(search)) || (t.notes != "" && Occurs(ToLower(t.notes), ToLower(search)))
  {
    ContainsIff(ToLower(t.title), ToLower(search));
    ContainsIff(ToLower(t.notes), ToLower(search));
    Contains(ToLower(t.title), ToLower(search)) || (t.notes != "" && Contains(ToLower(t.notes), ToLower(search)))
  }

  /** The test applied to every task: the filter mode first; the search only under `All`. */
  predicate Shown(t: Task, mode: FilterMode, search: string, now: Timestamp) {
    match mode
    case Upcoming => IsUpcoming(t, now)
    case Completed => t.completed
    case All => search == "" || MatchesSearch(t, search)
  }

  /** `Shown` for fixed mode, search text and time, as the callback handed to `filter`. */
  function ShownBy(mode: FilterMode, search: string, now: Timestamp): Task -> bool {
    (t: Task) => Shown(t, mode, search, now)
  }

  /** The list the task pane shows, in store order. */
  function FilteredTodos(todos: seq<Task>, mode: FilterMode, search: string, now: Timestamp): (r: seq<Task>)
    ensures |r| <= |todos|
  {
    Filter(todos, ShownBy(mode, search, now))
  }

  /**
   * A task is visible exactly when it is in the store and passes the test, and
   * then with all of its occurrences.
   */
  lemma FilteredMembers(todos: seq<Task>, mode: FilterMode, search: string, now: Timestamp)
    ensures var r := FilteredTodos(todos, mode, search, now);
      && (forall t :: t in r <==> t in todos && Shown(t, mode, search, now))
      && (forall t :: multiset(r)[t] == if Shown(t, mode, search, now) then multiset(todos)[t] else 0)
  {
    FilterMembers(todos, ShownBy(mode, search, now));
    FilterCounts(todos, ShownBy(mode, search, now));
  }

  /** Whatever the mode, the visible list is an order-preserving subsequence of the store. */
  lemma FilteredIsSubsequence(todos: seq<Task>, mode: FilterMode, search: string, now: Timestamp)
    ensures IsSubsequence(FilteredTodos(todos, mode, search, now), todos)
  {
    FilterIsSubsequence(todos, ShownBy(mode, search, now));
  }

  /** Under `Completed` the view is exactly the completed tasks in store order, whatever the search text. */
  lemma CompletedView(todos: seq<Task>, search: string, now: Timestamp)
    ensures FilteredTodos(todos, Completed, search, now) == Filter(todos, (t: Task) => t.completed)
  {
    FilterExtensional(todos, ShownBy(Completed, search, now), (t: Task) => t.completed);
  }

  /** Under `Upcoming` the view is exactly the upcoming tasks in store order, whatever the search text. */
  lemma UpcomingView(todos: seq<Task>, search: string, now: Timestamp)
    ensures FilteredTodos(todos, Upcoming, search, now) == Filter(todos, (t: Task) => IsUpcoming(t, now))
  {
    FilterExtensional(todos, ShownBy(Upcoming, search, now), (t: Task) => IsUpcoming(t, now));
  }

  /** Under `All` an empty search shows the whole store. */
  lemma AllWithoutSearch(todos: seq<Task>, now: Timestamp)
    ensures FilteredTodos(todos, All, "", now) == todos
  {
    FilterKeepsAll(todos, ShownBy(All, "", now));
  }

  /**
   * Under `All` a non-empty search keeps exactly the tasks whose lowercased
   * title or notes contain the lowercased search text; the guard on empty
   * notes changes nothing, as empty notes cannot contain a non-empty text.
   */
  lemma AllWithSearch(todos: seq<Task>, search: string, now: Timestamp)
    requires search != ""
    ensures FilteredTodos(todos, All, search, now)
         == Filter(todos, (t: Task) => Contains(ToLower(t.title), ToLower(search)) || Contains(ToLower(t.notes), ToLower(search)))
  {
    var s := ToLower(search);
    forall t: Task ensures Shown(t, All, search, now) == (Contains(ToLower(t.title), s) || Contains(ToLower(t.notes), s)) {
      if t.notes == "" {
        assert ToLower(t.notes) == "";
        assert |s| > 0;
      }
    }
    FilterExtensional(todos, ShownBy(All, search, now),
     (t: Task) => Contains(ToLower(t.title), s) || Contains(ToLower(t.notes), s));
  }

  /**
   * An upcoming task leaves the `Upcoming` view once the evaluation time reaches
   * its reminder, although none of its fields changed.
   */
  lemma UpcomingExpires(todos: seq<Task>, t: Task, search: string, now: Timestamp, later: Timestamp)
    requires t in FilteredTodos(todos, Upcoming, search, now)
    requires t.reminder.Some? && later >= t.reminder.value
    ensures t in todos
    ensures t !in FilteredTodos(todos, Upcoming, search, later)
  {
    FilteredMembers(todos, Upcoming, search, now);
    FilteredMembers(todos, Upcoming, search, later);
  }

  /**
   * Searching "foo" under `All` finds "Foobar" by its title, whatever the case,
   * and a task whose title does not match but whose notes do.
   */
  lemma SearchMatchesTitleOrNotes(now: Timestamp)
    ensures var byTitle := Task("1", "Foobar", "", None, false, 0);
      var byNotes := Task("2", "Groceries", "buy food", None, false, 0);
      var neither := Task("3", "Laundry", "", None, false, 0);
      FilteredTodos([byTitle, byNotes, neither], All, "foo", now) == [byTitle, byNotes]
  {
    FooExamples();
    SearchKeepsMatches(Task("1", "Foobar", "", None, false, 0), Task("2", "Groceries", "buy food", None, false, 0),
      Task("3", "Laundry", "", None, false, 0), "foo", now);
  }

  lemma SearchKeepsMatches(a: Task, b: Task, c: Task, search: string, now: Timestamp)
    requires search != "" && MatchesSearch(a, search) && MatchesSearch(b, search) && !MatchesSearch(c, search)
    ensures FilteredTodos([a, b, c], All, search, now) == [a, b]
  {
    var p := ShownBy(All, search, now);
    assert p(a) && p(b) && !p(c);
    assert [a, b, c] == [a] + ([b] + [c]);
    FilterCons(a, [b] + [c], p);
    FilterCons(b, [c], p);
    FilterCons(c, [], p);
    assert [c] + [] == [c];
  }

  lemma FooExamples()
    ensures MatchesSearch(Task("1", "Foobar", "", None, false, 0), "foo")
    ensures MatchesSearch(Task("2", "Groceries", "buy food", None, false, 0), "foo")
    ensures !MatchesSearch(Task("3", "Laundry", "", None, false, 0), "foo")
  {
    FooInTitle();
    FooInNotes();
    FooNowhere();
  }

  lemma FooInTitle()
    ensures Contains(ToLower("Foobar"), ToLower("foo"))
  {
    LowerFoo();
    assert ToLower("Foobar") == "foobar";
    assert "foobar"[..3] == "foo";
  }

  lemma FooInNotes()
    ensures Contains(ToLower("buy food"), ToLower("foo"))
  {
    LowerFoo();
    assert ToLower("buy food") == "buy food";
    assert SliceAt("buy food", 4, "foo");
    ContainsIff("buy food", "foo");
  }

  lemma FooNowhere()
    ensures !Contains(ToLower("Laundry"), ToLower("foo"))
  {
    LowerFoo();
    assert ToLower("Laundry") == "laundry";
    ContainsFirstChar("laundry", "foo");
  }

  lemma LowerFoo()
    ensures ToLower("foo") == "foo"
  {
  }

  // ----------------------------------------------------------------- selection

  /** `k` is the first position of the store whose task carries `id`. */
  ghost predicate FirstWithId(todos: seq<Task>, id: TaskId, k: int) {
    0 <= k < |todos| && todos[k].id == id && forall j :: 0 <= j < k ==> todos[j].id != id
  }

  /** `todos.find(t => t.id === id)`: the first task with the id, or none; a null id matches nothing. */
  function FindById(todos: seq<Task>, id: Option<TaskId>): (r: Option<Task>)
    ensures r.None? <==> id.None? || !HasId(todos, id.value)
    ensures r.Some? ==> exists k :: FirstWithId(todos, id.value, k) && todos[k] == r.value
  {
    if id.None? || todos == [] then None
    else if todos[0].id == id.value then
      assert FirstWithId(todos, id.value, 0);
      Some(todos[0])
    else
      var r := FindById(todos[1..], id);
      FirstWithIdInTail(todos, id.value);
      r
  }

  /** Past a head that does not carry `id`, first positions in the tail are first positions in the whole. */
  lemma FirstWithIdInTail(todos: seq<Task>, id: TaskId)
    requires todos != [] && todos[0].id != id
    ensures forall k :: FirstWithId(todos[1..], id, k) ==> FirstWithId(todos, id, k + 1)
    ensures HasId(todos, id) <==> HasId(todos[1..], id)
  {
    forall k | FirstWithId(todos[1..], id, k) ensures FirstWithId(todos, id, k + 1) {
      forall j | 1 <= j < k + 1 ensures todos[j].id != id {
        assert todos[j] == todos[1..][j - 1];
      }
    }
    if HasId(todos, id) {
      var k :| 0 <= k < |todos| && todos[k].id == id;
      assert todos[1..][k - 1] == todos[k];
    }
  }

  /**
   * The task the details pane shows: the remembered task if the full store
   * still has it (visible or not), else the first visible task, else none.
   */
  function SelectedTodo(todos: seq<Task>, selectedId: Option<TaskId>, visible: seq<Task>): (r: Option<Task>)
    ensures selectedId.Some? && HasId(todos, selectedId.value) ==>
      r.Some? && r.value.id == selectedId.value && exists k :: FirstWithId(todos, selectedId.value, k) && todos[k] == r.value
    ensures !(selectedId.Some? && HasId(todos, selectedId.value)) ==>
      r == if visible != [] then Some(visible[0]) else None
  {
    match FindById(todos, selectedId)
    case Some(t) => Some(t)
    case None => if visible != [] then Some(visible[0]) else None
  }

  /** The selection is always a task of the store. */
  lemma SelectedIsInStore(todos: seq<Task>, selectedId: Option<TaskId>, mode: FilterMode, search: string, now: Timestamp)
    ensures var r := SelectedTodo(todos, selectedId, FilteredTodos(todos, mode, search, now));
      r.Some? ==> r.value in todos
  {
    var visible := FilteredTodos(todos, mode, search, now);
    FilteredMembers(todos, mode, search, now);
    if !(selectedId.Some? && HasId(todos, selectedId.value)) && visible != [] {
      assert visible[0] in visible;
    }
  }

  /** A remembered task that still exists stays selected across every change of filter or search. */
  lemma SelectionSurvivesFiltering(todos: seq<Task>, id: TaskId, v1: seq<Task>, v2: seq<Task>)
    requires HasId(todos, id)
    ensures SelectedTodo(todos, Some(id), v1) == SelectedTodo(todos, Some(id), v2)
  {
    var r1 := SelectedTodo(todos, Some(id), v1);
    var r2 := SelectedTodo(todos, Some(id), v2);
    var k1 :| FirstWithId(todos, id, k1) && todos[k1] == r1.value;
    var k2 :| FirstWithId(todos, id, k2) && todos[k2] == r2.value;
    assert k1 == k2;
  }

  // ---------------------------------------------------------------- transitions

  /** `todos.map(t => t.id === id ? f(t) : t)`: same positions, `f` applied where the id matches. */
  function UpdateWhere(todos: seq<Task>, id: TaskId, f: Task -> Task): (r: seq<Task>)
    ensures |r| == |todos|
    ensures forall k :: 0 <= k < |todos| ==> r[k] == if todos[k].id == id then f(todos[k]) else todos[k]
  {
    if todos == [] then []
    else [if todos[0].id == id then f(todos[0]) else todos[0]] + UpdateWhere(todos[1..], id, f)
  }

  /** Flipping completion of the tasks with `id`: nothing but their `completed` field changes. */
  function Toggled(todos: seq<Task>, id: TaskId): (r: seq<Task>)
    ensures |r| == |todos|
    ensures forall k :: 0 <= k < |todos| ==>
      && r[k].(completed := todos[k].completed) == todos[k]
      && r[k].completed == (todos[k].completed != (todos[k].id == id))
  {
    UpdateWhere(todos, id, (t: Task) => t.(completed := !t.completed))
  }

  /** Toggling twice restores the original list. */
  lemma ToggleTwice(todos: seq<Task>, id: TaskId)
    ensures Toggled(Toggled(todos, id), id) == todos
  {
    var once := Toggled(todos, id);
    var twice := Toggled(once, id);
    forall k | 0 <= k < |todos| ensures twice[k] == todos[k] {
      assert once[k].id == todos[k].id;
    }
  }

  /** `todos.filter(t => t.id !== id)`: exactly the tasks with `id` go, the rest keep their order. */
  function Removed(todos: seq<Task>, id: TaskId): (r: seq<Task>)
    ensures |r| <= |todos|
  {
    Filter(todos, OtherId(id))
  }

  /** The callback of the delete handler's filter. */
  function OtherId(id: TaskId): Task -> bool {
    (t: Task) => t.id != id
  }

  /**
   * Deleting keeps a task exactly when its id differs, with all its
   * occurrences, and in store order.
   */
  lemma RemovedMembers(todos: seq<Task>, id: TaskId)
    ensures var r := Removed(todos, id);
      && (forall t :: t in r <==> t in todos && t.id != id)
      && (forall t :: multiset(r)[t] == if t.id != id then multiset(todos)[t] else 0)
      && IsSubsequence(r, todos)
  {
    FilterMembers(todos, OtherId(id));
    FilterCounts(todos, OtherId(id));
    FilterIsSubsequence(todos, OtherId(id));
  }

  /** With unique ids, deleting removes one task when the id is present and none otherwise. */
  lemma {:induction false} RemovedLength(todos: seq<Task>, id: TaskId)
    requires UniqueIds(todos)
    ensures |Removed(todos, id)| == if HasId(todos, id) then |todos| - 1 else |todos|
  {
    if todos != [] {
      RemovedLength(todos[1..], id);
      if todos[0].id == id {
        assert !HasId(todos[1..], id) by {
          forall k | 0 <= k < |todos[1..]| ensures todos[1..][k].id != id {
            assert todos[1..][k] == todos[k + 1];
          }
        }
        assert HasId(todos, id) by { assert todos[0].id == id; }
      } else {
        assert HasId(todos, id) <==> HasId(todos[1..], id) by {
          if HasId(todos, id) {
            var k :| 0 <= k < |todos| && todos[k].id == id;
            assert todos[1..][k - 1] == todos[k];
          }
          if HasId(todos[1..], id) {
            var k :| 0 <= k < |todos[1..]| && todos[1..][k].id == id;
            assert todos[k + 1] == todos[1..][k];
          }
        }
      }
    }
  }

  /** `handleAddNote`: the notes of the tasks with the target id become `text`; no target, no change. */
  function WithNote(todos: seq<Task>, target: Option<TaskId>, text: string): (r: seq<Task>)
    ensures target.None? ==> r == todos
    ensures |r| == |todos|
    ensures forall k :: 0 <= k < |todos| ==>
      && r[k].(notes := todos[k].notes) == todos[k]
      && r[k].notes == if target.Some? && todos[k].id == target.value then text else todos[k].notes
  {
    if target.None? then todos else UpdateWhere(todos, target.value, (t: Task) => t.(notes := text))
  }

  /** Saving a note twice is saving the second one: the last save wins. */
  lemma LastNoteWins(todos: seq<Task>, target: Option<TaskId>, first: string, second: string)
    ensures WithNote(WithNote(todos, target, first), target, second) == WithNote(todos, target, second)
  {
    var once := WithNote(todos, target, first);
    var twice := WithNote(once, target, second);
    var direct := WithNote(todos, target, second);
    forall k | 0 <= k < |todos| ensures twice[k] == direct[k] {
      assert once[k].id == todos[k].id;
    }
  }

  /** The create branch of `handleSave`: the new task, not completed and stamped `now`, goes in front. */
  function Created(todos: seq<Task>, v: Submission, freshId: TaskId, now: Timestamp): (r: seq<Task>)
    ensures |r| == |todos| + 1 && r[1..] == todos
    ensures r[0].id == freshId && !r[0].completed && r[0].createdAt == now
    ensures r[0].title == v.title && r[0].notes == v.notes && r[0].reminder == v.reminder
  {
    [Task(freshId, v.title, v.notes, v.reminder, false, now)] + todos
  }

  /** A fresh id keeps the ids unique. */
  lemma CreatedKeepsIdsUnique(todos: seq<Task>, v: Submission, freshId: TaskId, now: Timestamp)
    requires UniqueIds(todos) && !HasId(todos, freshId)
    ensures UniqueIds(Created(todos, v, freshId, now))
  {
    var r := Created(todos, v, freshId, now);
    forall j, k | 0 <= j < k < |r| ensures r[j].id != r[k].id {
      assert r[k] == todos[k - 1];
      if j > 0 { assert r[j] == todos[j - 1]; }
    }
  }

  /** The edit branch of `handleSave`: every task with the edited id is replaced by the submitted record. */
  function Edited(todos: seq<Task>, editedId: TaskId, v: Submission): (r: seq<Task>)
    requires v.id.Some? && v.createdAt.Some?
    ensures |r| == |todos|
    ensures forall k :: 0 <= k < |todos| ==> r[k] == if todos[k].id == editedId then SubmittedTask(v) else todos[k]
  {
    var saved := SubmittedTask(v);
    UpdateWhere(todos, editedId, (t: Task) => saved)
  }

  /**
   * The form carries the edited task's `completed` from the moment editing
   * began: toggling the task while the form is open and then saving it
   * untouched puts the old completion state back.
   */
  lemma StaleEditRevertsToggle(todos: seq<Task>, e: Task, v: Submission)
    requires v.id == Some(e.id) && v.createdAt == Some(e.createdAt) && v.completed == e.completed
    ensures var r := Edited(Toggled(todos, e.id), e.id, v);
      forall k :: 0 <= k < |todos| && todos[k].id == e.id ==> r[k].completed == e.completed
  {
  }

  /**
   * When the form was seeded from a snapshot whose creation time agrees with
   * the stored tasks of its id (also after a toggle made while the form was
   * open), an edit keeps every task's id and creation time, and so keeps
   * unique ids unique.
   */
  lemma EditKeepsIdentity(todos: seq<Task>, e: Task, v: Submission)
    requires forall k :: 0 <= k < |todos| && todos[k].id == e.id ==> todos[k].createdAt == e.createdAt
    requires v.id == Some(e.id) && v.createdAt == Some(e.createdAt)
    ensures var r := Edited(todos, e.id, v);
      && (forall k :: 0 <= k < |todos| ==> r[k].id == todos[k].id && r[k].createdAt == todos[k].createdAt)
      && (UniqueIds(todos) ==> UniqueIds(r))
  {
  }

  /** A toggle leaves every creation time in place, so an edit seeded before it still keeps identities. */
  lemma ToggledThenEditedKeepsIdentity(todos: seq<Task>, e: Task, v: Submission)
    requires e in todos
    requires v.id == Some(e.id) && v.createdAt == Some(e.createdAt)
    requires UniqueIds(todos)
    ensures var r := Edited(Toggled(todos, e.id), e.id, v);
      && (forall k :: 0 <= k < |todos| ==> r[k].id == todos[k].id && r[k].createdAt == todos[k].createdAt)
      && UniqueIds(r)
  {
    var toggled := Toggled(todos, e.id);
    var i :| 0 <= i < |todos| && todos[i] == e;
    forall k | 0 <= k < |toggled| && toggled[k].id == e.id ensures toggled[k].createdAt == e.createdAt {
      assert k == i;
    }
    EditKeepsIdentity(toggled, e, v);
  }
}
