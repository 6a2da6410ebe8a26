/**
 * The details pane's note editor: an edit flag and a draft buffer kept apart
 * from the task's committed notes.
 */
module Details {
  import opened Tasks

  class TodoDetails {
    /** The id of the task the reset effect last ran for. */
    var shownId: TaskId
    var editingNote: bool
    var noteDraft: string

    constructor (todo: Task)
      ensures shownId == todo.id && !editingNote && noteDraft == todo.notes
    {
      shownId := todo.id;
      editingNote := false;
      noteDraft := todo.notes;
    }

    /**
     * Showing a task: when its id differs from the one shown before, the edit
     * mode is left and the draft is reseeded from the task's notes, dropping any
     * unsaved draft; for the same id nothing changes.
     */
    method Show(todo: Task)
      modifies this
      ensures todo.id != old(shownId) ==> shownId == todo.id && !editingNote && noteDraft == todo.notes
      ensures todo.id == old(shownId) ==>
        shownId == old(shownId) && editingNote == old(editingNote) && noteDraft == old(noteDraft)
    {
      if todo.id != shownId {
        shownId := todo.id;
        editingNote := false;
        noteDraft := todo.notes;
      }
    }

    /** The "Edit Note" / "Add Note" button: the draft is whatever it was left at. */
    method StartEditing()
      modifies this
      ensures editingNote && noteDraft == old(noteDraft) && shownId == old(shownId)
    {
      editingNote := true;
    }

    /** Typing in the note box, which exists only while editing. */
    method EditDraft(text: string)
      requires editingNote
      modifies this
      ensures noteDraft == text && editingNote && shownId == old(shownId)
    {
      noteDraft := text;
    }

    /** "Cancel" leaves edit mode without committing; the draft itself is kept. */
    method CancelEditing()
      modifies this
      ensures !editingNote && noteDraft == old(noteDraft) && shownId == old(shownId)
    {
      editingNote := false;
    }

    /** "Save": the draft is handed to the app's note handler and edit mode is left. */
    method HandleNoteSave() returns (noteText: string)
      requires editingNote
      modifies this
      ensures noteText == old(noteDraft)
      ensures !editingNote && noteDraft == old(noteDraft) && shownId == old(shownId)
    {
      noteText := noteDraft;
      editingNote := false;
    }
  }
}
