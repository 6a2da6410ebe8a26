/**
 * The records of the task list: a task, the record the form hands to the
 * save handler, and the three filter modes.
 */
module Tasks {

  datatype Option<T> = None | Some(value: T)

  /** Ids are the decimal clock readings `Date.now().toString()` produces; any string here. */
  type TaskId = string

  /** Milliseconds since the epoch; reminders and creation times are compared as numbers. */
  type Timestamp = int

  datatype Task = Task(
    id: TaskId,
    title: string,
    notes: string,
    reminder: Option<Timestamp>,
    completed: bool,
    createdAt: Timestamp)

  datatype FilterMode = All | Upcoming | Completed

  /**
   * What the form submits: every field of a task, with `id` and `createdAt`
   * absent (JavaScript `undefined`) when the form was not editing a task.
   */
  datatype Submission = Submission(
    title: string,
    reminder: Option<Timestamp>,
    notes: string,
    completed: bool,
    id: Option<TaskId>,
    createdAt: Option<Timestamp>)

  /** The submission spread over an existing task: it carries all six fields, so it replaces them all. */
  function SubmittedTask(v: Submission): (t: Task)
    requires v.id.Some? && v.createdAt.Some?
    ensures t.id == v.id.value && t.createdAt == v.createdAt.value
    ensures t.title == v.title && t.notes == v.notes && t.reminder == v.reminder && t.completed == v.completed
  {
    Task(v.id.value, v.title, v.notes, v.reminder, v.completed, v.createdAt.value)
  }

  /** Some task in the list carries `id`. */
  ghost predicate HasId(todos: seq<Task>, id: TaskId) {
    exists k :: 0 <= k < |todos| && todos[k].id == id
  }

  /** No two tasks share an id. The app does not enforce this; lemmas assume it where they need it. */
  ghost predicate UniqueIds(todos: seq<Task>) {
    forall j, k :: 0 <= j < k < |todos| ==> todos[j].id != todos[k].id
  }
}
