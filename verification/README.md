# Smart Study task store, modelled in Dafny

Smart Study is a single-page study planner. The user writes a study task
(a title, a subject, an optional deadline and a priority) and adds it to a
list. Tasks can be marked done, edited and deleted, and the list can be
filtered by subject. A header shows the total, completed and pending counts
and a rounded progress percentage. A pending task whose deadline has passed
is flagged as overdue.

All of this lives in the `App` component (`src/App.jsx`). This project models
its state and handlers, plus the views derived from that state:

- `task_model.dfy`, module `TaskModel`. The task record, the form draft, and
  the list operations the handlers are built from. `Filter` is
  `Array.prototype.filter`. Its predicates are given as the datatype `Keep`
  rather than as lambdas. `Edited` and `Toggled` are the two map-by-id
  updates. This file also holds the lemmas about them: order-preserving
  subsequence, exact occurrence counts, absent-id no-ops, toggle involution,
  and preservation of unique ids and non-empty titles.
- `task_view.dfy`, module `TaskView`. The subject-filtered list, the
  completed and pending counts, the progress percentage and the overdue test,
  with lemmas relating each one to what it claims to show.
- `task_store.dfy`, module `Store`. The class `TaskStore` holds the three
  pieces of component state the handlers overwrite: `tasks`, `draft` (the
  source's `newTask`) and `editingId`. It has one method per handler. Three
  client methods chain handlers and prove the results stated for those
  sequences.

Ids are `Date.now()` timestamps. The model takes the id as a parameter
`freshId` that must not already be in the list. The source does not check
this, so id uniqueness holds only under that assumption. Ids are positive, so the
source's `if (editingId)` is exactly `editingId.Some?`. A deadline is a
calendar day number, and the empty deadline string is `None`. The overdue
test takes `today` as a day number.

In three places the code behaves differently from what one might expect.
The model follows the code:

- Delete removes *every* task with the given id, not exactly one.
  `RemoveIdRemovesOne` proves that the two agree when ids are unique.
- Unreadable stored data does not load as an empty list: `JSON.parse` is
  unguarded and would throw. Loading is not modelled (see below).
- "Progress is 100% exactly when every task is done" holds only for lists of
  fewer than 200 tasks. With 200 tasks of which 199 are done, `Math.round`
  gives 100. Likewise "0% exactly when none is done" holds only up to 200
  tasks. The lemmas state the exact thresholds.

## Model

| member | source | states |
|---|---|---|
| `TaskModel.NewTask` | src/App.jsx:61-65 | the created task has the given id, is pending, and holds exactly the draft's four fields |
| `TaskModel.WithDraft` | src/App.jsx:56 | the spread keeps the task's id and completed flag and takes the draft's four fields; writing back the task's own fields changes nothing |
| `TaskModel.DraftOfIsTheEditableFields` | src/App.jsx:74-79 | about `DraftOf`, the fields loaded into the form: together with id and completed they determine the task, so two tasks with the same id and flag are equal iff their drafts are |
| `TaskModel.Filter` | src/App.jsx:96 | the filtered list is no longer than the input, and every element in it passes the predicate |
| `TaskModel.FilterIsSubsequence` | src/App.jsx:96 | the filtered list is an order-preserving subsequence of the input |
| `TaskModel.FilterCounts` | src/App.jsx:96 | each task occurs in the result as often as in the input if it passes, and otherwise not at all |
| `TaskModel.FilterMembership` | src/App.jsx:96 | a task is in the result iff it is in the input and passes |
| `TaskModel.FilterKeepsAll` | src/App.jsx:96 | filtering returns the input unchanged iff every element passes |
| `TaskModel.FilterKeepsIdsOf` | src/App.jsx:96 | filtering never introduces an id that the input lacks |
| `TaskModel.FilterPreservesWellFormed` | src/App.jsx:95-96 | filtering keeps ids unique and titles non-empty |
| `TaskModel.RemoveIdRemovesOne` | src/App.jsx:95-96 | with unique ids, deleting a present id shortens the list by exactly one |
| `TaskModel.Edited` | src/App.jsx:55-57 | same length and order; every task keeps its id and completed flag; tasks with the edited id take the draft's title, subject, deadline and priority; all other tasks are unchanged |
| `TaskModel.EditedPreservesWellFormed` | src/App.jsx:51-57 | with a non-empty draft title, an update keeps ids unique and titles non-empty |
| `TaskModel.EditWithOwnDraftIsNoOp` | src/App.jsx:55-79 | with unique ids, applying a task's own loaded form fields to it leaves the list unchanged |
| `TaskModel.Toggled` | src/App.jsx:89-93 | same length; only `completed` may change, and it flips exactly on the tasks with the given id |
| `TaskModel.ToggleTwice` | src/App.jsx:89-93 | toggling the same id twice gives back the original list |
| `TaskModel.ToggledPreservesWellFormed` | src/App.jsx:89-93 | toggling keeps ids unique and titles non-empty |
| `TaskModel.AbsentIdIsNoOp` | src/App.jsx:53-98 | update, toggle and delete of an id not in the list leave the list unchanged |
| `TaskModel.PrependPreservesWellFormed` | src/App.jsx:59-66 | prepending a new task with a fresh id and a non-empty title keeps ids unique and titles non-empty |
| `TaskView.FilteredTasks` | src/App.jsx:102-104 | the view is never longer than the list, and every task in it matches the filter |
| `TaskView.FilteredTasksSpec` | src/App.jsx:102-104 | the view is the order-preserving subsequence holding every occurrence of every matching task and nothing else; with `All` it is the list itself |
| `TaskView.CompletedCount` | src/App.jsx:106 | the completed count is at most the number of tasks |
| `TaskView.PendingCount` | src/App.jsx:151 | pending plus completed equals the number of tasks |
| `TaskModel.CompletedPendingPartition` | src/App.jsx:151 | the completed tasks and the pending tasks together account for every task |
| `TaskView.CountsSpec` | src/App.jsx:106 | pending counts exactly the tasks not done; completed equals the total iff all tasks are done, and is 0 iff none is |
| `TaskView.ToggleShiftsCompletedCount` | src/App.jsx:89-93 | with unique ids, toggling a present task raises the completed count by one if it was pending and lowers it by one if it was done |
| `TaskView.RoundedPercent` | src/App.jsx:107 | the result is at most 100 and is the integer nearest to 100 * completed / total, with halves rounded up (`Math.round`) |
| `TaskView.Progress` | src/App.jsx:107 | progress lies in 0..100 |
| `TaskView.ProgressFull` | src/App.jsx:107 | progress is 100 iff the list is non-empty and at most one task in 200 is pending |
| `TaskView.ProgressZero` | src/App.jsx:107 | progress is 0 iff the list is empty or fewer than one task in 200 is done |
| `TaskView.ProgressFullMeansAllDone` | src/App.jsx:107 | all done means 100; below 200 tasks, 100 means all done; 199 of 200 done also shows 100 |
| `TaskView.ProgressZeroMeansNoneDone` | src/App.jsx:107 | none done means 0; up to 200 tasks, 0 means none done; 1 of 201 done also shows 0 |
| `TaskView.OverdueSpec` | src/App.jsx:118-121 | about `IsOverdue`, the intended calendar-day test that the views use: no deadline is never overdue; a deadline on today's date is not overdue; once overdue, a task stays overdue on later days |
| `TaskView.CompletedNeverShownOverdue` | src/App.jsx:235 | about `ShownOverdue`, the list's flag built on the intended test: a completed task is never flagged as overdue |
| `TaskView.IsOverdueAsWritten` | src/App.jsx:118-121 | the code's comparison of the deadline's UTC midnight with local midnight: no deadline is never overdue; at UTC or east of it, it agrees with the calendar-day test; west of UTC, a deadline counts as overdue from its own day onward |
| `TaskView.ShownOverdueAsWritten` | src/App.jsx:235 | the list's flag as the code computes it: never on a completed task; equal to the intended flag at UTC or east of it; already set on the due day west of UTC |
| `TaskView.SameDayOverdueWestOfUtc` | src/App.jsx:120 | at UTC-5, the code flags a task due today as overdue, while the calendar-day test does not |
| `Store.TaskStore.constructor` | src/App.jsx:18-36 | start-up state: the loaded list, the default form, no editing session |
| `Store.TaskStore.SetDraft` | src/App.jsx:176-195 | a form change replaces the draft and leaves the list and the session alone |
| `Store.TaskStore.Submit` | src/App.jsx:49-70 | empty title: nothing changes, the draft included. While idle: a pending task made from the draft is put at the front, before the unchanged old list. While editing: the list becomes `Edited` with the session's id and the session ends. Either success resets the draft to its defaults. The session invariant and the unique-id/non-empty-title invariant are kept |
| `Store.TaskStore.StartEditing` | src/App.jsx:72-82 | the session targets the task's id, the draft holds its four fields, and the list is unchanged |
| `Store.TaskStore.CancelEditing` | src/App.jsx:84-87 | the session ends, the draft is reset, and the list is unchanged |
| `Store.TaskStore.Toggle` | src/App.jsx:89-93 | the list becomes `Toggled`; the draft and the session are unchanged; the invariants are kept |
| `Store.TaskStore.Delete` | src/App.jsx:95-98 | the list becomes the tasks whose id differs, in order. Deleting the edited task ends the session and resets the draft; otherwise the session and the draft are unchanged. The invariants are kept |
| `Store.KeptIdSurvives` | src/App.jsx:95-97 | deleting one id never removes a task with a different id, so an editing session on another task stays valid |
| `Store.EditRoundTrip` | src/App.jsx:49-82 | starting an edit and submitting the unchanged form leaves the list as it was and ends the session |
| `Store.SubmitWhileEditingTakesEffect` | src/App.jsx:53-58 | while editing, submitting a non-empty draft that differs from every listed task's fields changes the list, keeps its length, and ends the session; this rests on the session invariant that the edited task is present |
| `Store.DeleteWhileEditing` | src/App.jsx:95-98 | after deleting the task being edited, the next submit creates a new task in front of the remaining list instead of updating |

## Left out

- Persistence is not modelled. The source reads the list from `localStorage` with `JSON.parse` and writes it back after each change (src/App.jsx:18-21, 39-41). This is browser I/O, and no JSON codec is visible. The constructor takes the already-decoded list, and the save/load round trip is not stated.
- Unreadable stored data is not modelled. The unguarded `JSON.parse` would throw on it.
- The dark-mode preference and the `data-theme` attribute (src/App.jsx:31-34, 43-46) are not modelled. They are a stored boolean plus DOM output.
- `e.preventDefault()` and `window.scrollTo` (src/App.jsx:50, 81) are not modelled. They are UI side effects with no effect on state.
- The markup, CSS classes, icons and `getPriorityColor` (src/App.jsx:109-116, 123-290) are presentation and are not modelled.
- The clock is not modelled. `Date.now()` ids become the `freshId` parameter of `Store.TaskStore.Submit`.
- `Store.TaskStore.Submit` assumes the clock never returns an id already in the list: it requires `freshId` to be unused, even when an edit will not use it. The source does not check this. A clock set back, or a list saved under a skewed clock, can make `Date.now()` equal a stored id. Every unique-id result for Submit holds only under this assumption.
- `Store.TaskStore.StartEditing` requires the task to be in the list. The source only calls it on tasks rendered from that list.
- Subject and priority are closed enumerations. The form's selects only produce these values. A stored string outside them cannot be represented.
- The subject filter selection (src/App.jsx:30) is a parameter of `TaskView.FilteredTasks`, not a field of `TaskStore`. Setting it changes nothing else.
- `TaskView.RoundedPercent` computes `Math.round(completed / total * 100)` on exact rationals, not on IEEE-754 doubles. In doubles, 23/40 is stored just below 0.575, and times 100 it gives 57.49999999999999. So the code shows 57 where `RoundedPercent` gives 58. Such differences arise only where the exact value is a half. There the double result can be one lower, never higher, and never 0 or 100. The boundary ratios of `TaskView.ProgressFull` and `TaskView.ProgressZero` (0.995 and 0.005) give 99.5 and 0.5 in doubles, which round to 100 and 1, so those thresholds also hold for the code's arithmetic.
- Dates are calendar day numbers. Parsing of the date string and the locale date display (src/App.jsx:257) are not modelled. Time zones appear only in `TaskView.IsOverdueAsWritten` and `TaskView.ShownOverdueAsWritten`, as an offset from UTC in minutes.
- React's batching and scheduling of `setState` calls are not modelled. Each handler is one atomic transition.

## Findings

| source | as written | input that shows it | evidently intended | confidence | as-written member | corrected member |
|---|---|---|---|---|---|---|
| src/App.jsx:118-121 | `new Date(deadline)` reads a "YYYY-MM-DD" string as midnight UTC, which it compares with today's local midnight | time zone UTC-5, deadline equal to today's date: the task is flagged overdue | a deadline on today's date is not overdue in any time zone, as the comparison of calendar days suggests | medium; not executed | `TaskView.IsOverdueAsWritten` and `TaskView.ShownOverdueAsWritten`, shown by `TaskView.SameDayOverdueWestOfUtc` | `TaskView.IsOverdue` and `TaskView.ShownOverdue`, proved in `TaskView.OverdueSpec` and `TaskView.CompletedNeverShownOverdue` |
