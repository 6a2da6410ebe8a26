/**
 * The create/edit form: three input fields seeded from the task being edited,
 * and the submit handler that validates and normalises them.
 */
module Form {
  import opened Tasks
  import opened Text

  /** What a submit does: alert about an empty title, or hand a record to the save handler. */
  datatype SubmitOutcome = EmptyTitle | Save(values: Submission)

  /**
   * The decision `handleSubmit` takes on the field values and the task the form
   * edits (`initial`, none when creating).
   */
  function Submit(title: string, reminder: Option<Timestamp>, notes: string, initial: Option<Task>): (r: SubmitOutcome)
    ensures r.EmptyTitle? <==> AllWhitespace(title)
    ensures r.Save? ==> r.values.title != "" && r.values.title == Trim(title) && r.values.notes == Trim(notes)
    ensures r.Save? ==> r.values.reminder == reminder
    ensures r.Save? ==> match initial
      case Some(e) => r.values.id == Some(e.id) && r.values.createdAt == Some(e.createdAt) && r.values.completed == e.completed
      case None => r.values.id.None? && r.values.createdAt.None? && !r.values.completed
  {
    var t := Trim(title);
    if t == "" then EmptyTitle
    else Save(Submission(
      t,
      reminder,
      Trim(notes),
      if initial.Some? then initial.value.completed else false,
      if initial.Some? then Some(initial.value.id) else None,
      if initial.Some? then Some(initial.value.createdAt) else None))
  }

  /** A record the form accepted is already trimmed: a second pass would not change it. */
  lemma SubmittedIsTrimmed(title: string, reminder: Option<Timestamp>, notes: string, initial: Option<Task>)
    requires Submit(title, reminder, notes, initial).Save?
    ensures var v := Submit(title, reminder, notes, initial).values;
      Trim(v.title) == v.title && Trim(v.notes) == v.notes
  {
    TrimIdempotent(title);
    TrimIdempotent(notes);
  }

  /**
   * Opening a task in the form and submitting it untouched gives back the same
   * task, for every task whose title and notes were saved through the form.
   */
  lemma UntouchedEditRoundTrip(e: Task)
    requires e.title != "" && Trim(e.title) == e.title && Trim(e.notes) == e.notes
    ensures var r := Submit(e.title, e.reminder, e.notes, Some(e));
      r.Save? && SubmittedTask(r.values) == e
  {
  }

  class TodoForm {
    var title: string
    /** The date-time field: None stands for the empty input `""`. */
    var reminder: Option<Timestamp>
    var notes: string

    /** The fields are seeded once, from the task being edited when there is one. */
    constructor (initial: Option<Task>)
      ensures title == (if initial.Some? then initial.value.title else "")
      ensures reminder == (if initial.Some? then initial.value.reminder else None)
      ensures notes == (if initial.Some? then initial.value.notes else "")
    {
      title := if initial.Some? then initial.value.title else "";
      reminder := if initial.Some? then initial.value.reminder else None;
      notes := if initial.Some? then initial.value.notes else "";
    }

    method SetTitle(value: string)
      modifies this
      ensures title == value && reminder == old(reminder) && notes == old(notes)
    {
      title := value;
    }

    method SetReminder(value: Option<Timestamp>)
      modifies this
      ensures reminder == value && title == old(title) && notes == old(notes)
    {
      reminder := value;
    }

    method SetNotes(value: string)
      modifies this
      ensures notes == value && title == old(title) && reminder == old(reminder)
    {
      notes := value;
    }

    /**
     * Submit with the form's current `initial`. An all-whitespace title is
     * rejected and leaves the fields as they were; otherwise the record goes out
     * and the fields are cleared.
     */
    method HandleSubmit(initial: Option<Task>) returns (outcome: SubmitOutcome)
      modifies this
      ensures outcome == Submit(old(title), old(reminder), old(notes), initial)
      ensures outcome.EmptyTitle? ==> title == old(title) && reminder == old(reminder) && notes == old(notes)
      ensures outcome.Save? ==> title == "" && reminder == None && notes == ""
    {
      outcome := Submit(title, reminder, notes, initial);
      if outcome.Save? {
        title := "";
        reminder := None;
        notes := "";
      }
    }
  }
}
