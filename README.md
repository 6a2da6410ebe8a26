# Minimal task manager: a Dafny model of its state and handlers

The front end keeps a list of tasks. Each task has an id, a title, notes, an optional reminder, a completion flag and a creation time. Around the list sit the app's UI state:

- the remembered selection;
- the search text;
- the filter mode (`all`, `upcoming` or `completed`);
- whether the create/edit form is open;
- the task being edited.

The app derives two things from this state on every render: the visible list and the task shown in the details pane. Each event handler assigns new values to the fields it touches; lists are replaced by new arrays, never updated in place. Two child components keep local state of their own:

- the form holds three input fields and validates them on submit;
- the details pane holds a note-editing flag and an uncommitted draft.

The model has seven modules.

- `Text`: the JavaScript string primitives the app uses. `trim` strips the ECMAScript whitespace and line-terminator set. `toLowerCase` is modelled on ASCII letters. `includes` is defined recursively and proved equal to the positional definition.
- `Sequences`: `Array.prototype.filter` and the notion of an order-preserving subsequence. It holds the lemmas on membership, multiplicities and order.
- `Tasks`: the records, namely the task, the filter mode and the record the form submits.
- `TaskList`: the pure part of the app.
  - The visible-list function is proved to be an order-preserving subsequence.
  - The `Completed` and `Upcoming` views are proved to ignore the search, and the `All` view to apply the title-or-notes search.
  - The selection rule has three cases, and the selection survives filtering.
  - Each handler's new list: toggle (with its frame and involution), delete (members, multiplicities, order and length), add note (frame, no-op without a target, and last-save-wins), and create and edit.
- `Form`: the submit decision as a function, with trimming and validation. The form itself is a class whose fields the setters and `HandleSubmit` update.
- `Details`: the note editor as a class. `Show` re-runs the reset effect when the shown task's id changes. Each time the pane is mounted it is a fresh object, built by the constructor.
- `AppState`: the app as a class whose fields the handlers assign. Each handler's `ensures` gives the whole new state. Two client methods replay the add/toggle/view/delete scenario and the blank-title edit.

The current time, the fresh id (`Date.now().toString()`) and the answer to the delete confirmation are parameters. Timestamps are integers, compared as the source compares `Date` values.

Four behaviours of the code are easy to misread; the model follows the code as written:

- "Cancel" in the note editor leaves edit mode but keeps the draft (`Details.TodoDetails.CancelEditing`). The draft is reseeded only when a different task is shown.
- A stored list that is not valid JSON makes `JSON.parse` throw at start-up. There is no silent fallback to an empty list, so the constructor takes the already-decoded list.
- The form has no React key, so its fields are seeded once when it opens. Its `initial` is whatever `editingTodo` is at submit time.
- An edit copies `completed` from the snapshot taken when editing began. Toggling the task while the form is open is therefore undone by an untouched save (`TaskList.StaleEditRevertsToggle`).

## Model

| member | source | states |
|---|---|---|
| Text.Trim | todo_app_frontend/src/App.js:281-288 | the result is a slice of the input with only whitespace cut on either side, it has no whitespace at either end, and it is empty exactly when the input is all whitespace |
| Text.TrimIdempotent | todo_app_frontend/src/App.js:286-288 | trimming a trimmed string changes nothing |
| Text.LowerChar | todo_app_frontend/src/App.js:39 | an upper-case ASCII letter maps to its own lower-case letter ('A' to 'a', …), every other character is unchanged |
| Text.ToLower | todo_app_frontend/src/App.js:39-42 | the lowered string has the same length and is lowered position by position |
| Text.Contains | todo_app_frontend/src/App.js:41-42 | `includes`, defined by scanning; its meaning is the contract of `Text.ContainsIff` |
| Text.ContainsIff | todo_app_frontend/src/App.js:41-42 | `includes` holds exactly when the needle occurs at some position of the haystack |
| Text.ContainsFirstChar | todo_app_frontend/src/App.js:41-42 | a non-empty needle occurs only in a haystack holding its first character |
| Sequences.Filter | todo_app_frontend/src/App.js:29 | the filtered list is never longer than the list |
| Sequences.FilterMembers | todo_app_frontend/src/App.js:29-46 | an element is kept exactly when it is in the list and passes the test |
| Sequences.FilterCounts | todo_app_frontend/src/App.js:29-46 | a passing element keeps every occurrence, and a failing one keeps none |
| Sequences.FilterCons | todo_app_frontend/src/App.js:29-46 | the head is kept in front exactly when it passes |
| Sequences.FilterIsSubsequence | todo_app_frontend/src/App.js:29-46 | the filtered list embeds into the list at strictly increasing positions |
| Sequences.FilterExtensional | todo_app_frontend/src/App.js:29-46 | two tests that agree everywhere filter alike |
| Sequences.FilterKeepsAll | todo_app_frontend/src/App.js:45 | a test every element passes keeps the whole list |
| Tasks.SubmittedTask | todo_app_frontend/src/App.js:84 | spreading the submitted record over a task takes all six fields from the record: id, creation time, title, notes, reminder and completion |
| TaskList.IsUpcoming | todo_app_frontend/src/App.js:32 | the upcoming test: a reminder strictly after `now` and not completed; its use is stated by `TaskList.UpcomingView` and `TaskList.UpcomingExpires` |
| TaskList.MatchesSearch | todo_app_frontend/src/App.js:39-43 | a task matches exactly when the lowered search text occurs at some position of the lowered title, or of the lowered notes when they are non-empty |
| TaskList.Shown | todo_app_frontend/src/App.js:30-45 | the per-task callback: the mode test first, and the search only under `all`; its consequences are stated by the view lemmas below |
| TaskList.FilteredTodos | todo_app_frontend/src/App.js:29-46 | the visible list, never longer than the store; its members, multiplicities and order are stated by `TaskList.FilteredMembers` and `TaskList.FilteredIsSubsequence` |
| TaskList.FilteredMembers | todo_app_frontend/src/App.js:29-46 | a task is visible exactly when it is stored and passes the mode test, with all of its occurrences |
| TaskList.FilteredIsSubsequence | todo_app_frontend/src/App.js:29-46 | the visible list is an order-preserving subsequence of the store in every mode |
| TaskList.CompletedView | todo_app_frontend/src/App.js:34-36 | under `completed` the view is the completed tasks in store order, whatever the search text |
| TaskList.UpcomingView | todo_app_frontend/src/App.js:31-33 | under `upcoming` the view is the not-completed tasks with a reminder after `now`, whatever the search text |
| TaskList.AllWithoutSearch | todo_app_frontend/src/App.js:38-45 | under `all` with an empty search the view is the whole store |
| TaskList.AllWithSearch | todo_app_frontend/src/App.js:38-44 | under `all` with a search, the view keeps exactly the tasks whose lowered title or notes contain the lowered search |
| TaskList.UpcomingExpires | todo_app_frontend/src/App.js:32 | an upcoming task leaves the `upcoming` view once the evaluation time reaches its reminder, while it stays stored |
| TaskList.SearchMatchesTitleOrNotes | todo_app_frontend/src/App.js:38-44 | "foo" finds "Foobar" by title and "buy food" by notes, but not "Laundry" |
| TaskList.FindById | todo_app_frontend/src/App.js:49 | `find` gives nothing exactly when the id is null or absent, and otherwise gives the first task with that id |
| TaskList.SelectedTodo | todo_app_frontend/src/App.js:48-49 | the remembered task when the store has it (visible or not); otherwise the first visible task; otherwise none |
| TaskList.SelectedIsInStore | todo_app_frontend/src/App.js:48-49 | a selected task is always a stored task |
| TaskList.SelectionSurvivesFiltering | todo_app_frontend/src/App.js:48-49 | a remembered, still-stored task stays selected whatever the visible list is |
| TaskList.UpdateWhere | todo_app_frontend/src/App.js:73-75 | `map` keeps the length and positions, and applies the update exactly where the id matches |
| TaskList.Toggled | todo_app_frontend/src/App.js:71-77 | only `completed` changes, and it flips exactly for the tasks with the id |
| TaskList.ToggleTwice | todo_app_frontend/src/App.js:71-77 | toggling twice restores the list |
| TaskList.Removed | todo_app_frontend/src/App.js:66 | the list after a delete, never longer than before; its meaning is stated by `TaskList.RemovedMembers` and `TaskList.RemovedLength` |
| TaskList.RemovedMembers | todo_app_frontend/src/App.js:66 | the remaining tasks are those whose id differs, with all of their occurrences, in store order |
| TaskList.RemovedLength | todo_app_frontend/src/App.js:66 | with unique ids, deleting drops one task when the id is present and none otherwise |
| TaskList.WithNote | todo_app_frontend/src/App.js:101-108 | nothing changes without a target; otherwise only the notes of the target's tasks change, and they become the text |
| TaskList.LastNoteWins | todo_app_frontend/src/App.js:101-108 | saving two notes in a row is saving the second |
| TaskList.Created | todo_app_frontend/src/App.js:87-94 | the new task goes in front of the unchanged list, with the fresh id, not completed, stamped `now`, and with the submitted title, notes and reminder |
| TaskList.CreatedKeepsIdsUnique | todo_app_frontend/src/App.js:87-94 | a fresh id keeps ids unique |
| TaskList.Edited | todo_app_frontend/src/App.js:81-86 | every task with the edited id is replaced by the submitted record, and the others stay |
| TaskList.StaleEditRevertsToggle | todo_app_frontend/src/App.js:84 | saving an edit seeded before a toggle puts the old completion state back |
| TaskList.EditKeepsIdentity | todo_app_frontend/src/App.js:81-86 | an edit whose snapshot agrees in creation time with the stored tasks of its id keeps every id and creation time, and keeps unique ids unique |
| TaskList.ToggledThenEditedKeepsIdentity | todo_app_frontend/src/App.js:71-86 | a snapshot taken from the store, then toggled in the store while the form is open, still saves without changing any id or creation time, and keeps ids unique |
| Form.Submit | todo_app_frontend/src/App.js:279-296 | rejected exactly when the title is all whitespace; otherwise the title (non-empty) and notes are trimmed, the reminder is passed through, and id, creation time and completion come from the edited task or are absent/false |
| Form.SubmittedIsTrimmed | todo_app_frontend/src/App.js:286-288 | a submitted title and notes are fixed points of trimming |
| Form.UntouchedEditRoundTrip | todo_app_frontend/src/App.js:272-296 | opening a form-saved task and submitting it untouched gives back the same task |
| Form.TodoForm.constructor | todo_app_frontend/src/App.js:272-277 | the fields are seeded from the edited task, or are empty |
| Form.TodoForm.SetTitle | todo_app_frontend/src/App.js:310 | only the title changes |
| Form.TodoForm.SetReminder | todo_app_frontend/src/App.js:319 | only the reminder changes |
| Form.TodoForm.SetNotes | todo_app_frontend/src/App.js:327 | only the notes change |
| Form.TodoForm.HandleSubmit | todo_app_frontend/src/App.js:279-296 | gives the submit decision on the current fields; the fields stay on rejection and are cleared on save |
| Details.TodoDetails.constructor | todo_app_frontend/src/App.js:345-347 | not editing, and the draft is the task's notes |
| Details.TodoDetails.Show | todo_app_frontend/src/App.js:349-352 | a task with a different id resets edit mode and the draft; the same id changes nothing |
| Details.TodoDetails.StartEditing | todo_app_frontend/src/App.js:407-411 | enters edit mode and keeps the draft |
| Details.TodoDetails.EditDraft | todo_app_frontend/src/App.js:382-384 | typing replaces the draft and stays in edit mode |
| Details.TodoDetails.CancelEditing | todo_app_frontend/src/App.js:395-397 | leaves edit mode and keeps the draft |
| Details.TodoDetails.HandleNoteSave | todo_app_frontend/src/App.js:354-357 | hands out the draft and leaves edit mode |
| AppState.App.Visible | todo_app_frontend/src/App.js:29-46 | the task pane's list for the current state is an order-preserving subsequence of the store |
| AppState.App.Selected | todo_app_frontend/src/App.js:48-49 | the details pane's task for the current state is always a stored task |
| AppState.App.constructor | todo_app_frontend/src/App.js:7-19 | the store is the decoded saved list or empty, with nothing selected, no search, mode `all`, and the form closed |
| AppState.App.HandleDelete | todo_app_frontend/src/App.js:64-68 | declined: nothing changes; accepted: the tasks with the id go, and the selection is cleared exactly when it was that id |
| AppState.App.HandleToggleComplete | todo_app_frontend/src/App.js:71-77 | the store becomes the toggled list, and nothing else changes |
| AppState.App.HandleSave | todo_app_frontend/src/App.js:80-98 | editing replaces the edited tasks; otherwise a new task is prepended; either way the form closes and nothing is being edited |
| AppState.App.HandleAddNote | todo_app_frontend/src/App.js:101-108 | the note goes to the currently selected task; with no selection, nothing changes |
| AppState.App.HandleSearchChange | todo_app_frontend/src/App.js:111-113 | only the search text changes |
| AppState.App.HandleFilterChange | todo_app_frontend/src/App.js:116-118 | only the filter mode changes |
| AppState.App.HandleSelectTodo | todo_app_frontend/src/App.js:120-122 | only the remembered id changes, unchecked |
| AppState.App.HandleAddNew | todo_app_frontend/src/App.js:52-55 | opens the form with nothing to edit |
| AppState.App.HandleEdit | todo_app_frontend/src/App.js:58-61 | opens the form on the given task |
| AppState.App.HandleCancelForm | todo_app_frontend/src/App.js:236-239 | closes the form and forgets the edit target |
| AppState.App.SubmitForm | todo_app_frontend/src/App.js:234-241 | the form's decision with the current edit target; a rejected title leaves app and form unchanged; a save goes through `HandleSave` and clears the form's three fields |
| AppState.App.SaveNote | todo_app_frontend/src/App.js:354-357 | the draft becomes the selected task's notes, and edit mode is left with the draft and shown id kept |
| AppState.BuyMilkScenario | todo_app_frontend/src/App.js:80-98 | add "Buy milk", then toggle, the `completed` view and delete: one not-completed task, then exactly that task completed, then an empty store |
| AppState.BlankEditScenario | todo_app_frontend/src/App.js:279-284 | a blank edited title is rejected, and the store and open form are kept |

## Left out

- Persistence: reading and writing `localStorage` and the JSON encoding are not modelled. The constructor takes the decoded list, or none when nothing is stored.
- The light/dark theme and its toggle, the JSX markup, and the empty-list and empty-details placeholders: presentation only.
- `formatDatetime`: locale-dependent rendering of dates.
- `window.confirm` and `alert` are not modelled as dialogs. The confirmation answer is an input to `AppState.App.HandleDelete`, and the alert is the `EmptyTitle` outcome.
- Form.Submit: an empty title is stopped by the input's `required` attribute before `handleSubmit` runs, so no alert appears for it. Only a non-empty all-whitespace title reaches the alert. The resulting state is the same in both cases: the form stays open and nothing is saved.
- The clock and id generation: `now` and the fresh id are parameters, and ids are arbitrary strings. Fresh ids are unique only by `TaskList.CreatedKeepsIdsUnique`'s assumption.
- Date strings: reminders and creation times are integer timestamps. Parsing the `datetime-local` value and the ISO creation string is out of scope, and so is the invalid-date case of `new Date(...)`.
- Text.ToLower: lowers ASCII letters only, not the full Unicode case mapping of `toLowerCase`.
- Form.TodoForm.SetTitle: the input's 60-character `maxLength` is not enforced.
- Details.TodoDetails: the pane is rendered only while the form is closed and a task is selected. Opening the form (`AppState.App.HandleAddNew`, `AppState.App.HandleEdit`) or losing the selection unmounts it, and that discards the edit flag and any unsaved draft. Unmounting is not modelled: `AppState.App` owns no details object, and each mount is a new constructor call, never a reuse of an earlier object.
- AppState.App.HandleSave: requires that an edit's record carries an id and creation time. The form always supplies them when editing. The case of a spread of `undefined` ids has no counterpart with string ids.
- AppState.App.HandleFilterChange: the mode is one of the three values the UI sends. Any other string would act like `all` in the source.
- The details pane's "Edit Task" button is `AppState.App.HandleEdit` applied to the selected task. Its `hideEdit` prop is never read.
