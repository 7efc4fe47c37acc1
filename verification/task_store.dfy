/** The component state the task handlers update: the task collection, the
    form draft, and the id of the task being edited, if any. */
module Store {
  import opened TaskModel

  class TaskStore {
    var tasks: seq<Task>
    var draft: Draft
    /** The editing session: `None` while idle, `Some(id)` while editing. */
    var editingId: Option<Id>

    /** An editing session always targets a task in the collection. */
    ghost predicate Valid()
      reads this
    {
      editingId.Some? ==> HasId(tasks, editingId.value)
    }

    /** Start-up state: the collection read back from storage, an empty form,
        no editing session. */
    constructor (saved: seq<Task>)
      ensures Valid()
      ensures tasks == saved && draft == DefaultDraft && editingId == None
    {
      tasks := saved;
      draft := DefaultDraft;
      editingId := None;
    }

    /** A form field changed: the draft takes the new values. */
    method SetDraft(d: Draft)
      requires Valid()
      modifies this
      ensures Valid()
      ensures draft == d && tasks == old(tasks) && editingId == old(editingId)
    {
      draft := d;
    }

    /** The form is submitted. An empty title does nothing. Otherwise, while
        editing, the edited task takes the draft's four fields and the session
        ends; while idle, a new pending task with `freshId` is put in front.
        Either way the form is reset. */
    method Submit(freshId: Id)
      requires Valid()
      requires !HasId(tasks, freshId)
      modifies this
      ensures Valid()
      ensures old(draft.title) == "" ==>
                tasks == old(tasks) && draft == old(draft) && editingId == old(editingId)
      ensures old(draft.title) != "" && old(editingId).None? ==>
                tasks == [NewTask(freshId, old(draft))] + old(tasks)
      ensures old(draft.title) != "" && old(editingId).Some? ==>
                tasks == Edited(old(tasks), old(editingId).value, old(draft))
      ensures old(draft.title) != "" ==> draft == DefaultDraft && editingId == None
      ensures WellFormed(old(tasks)) ==> WellFormed(tasks)
    {
      if draft.title == "" {
        return;
      }
      if editingId.Some? {
        if WellFormed(tasks) {
          EditedPreservesWellFormed(tasks, editingId.value, draft);
        }
        tasks := Edited(tasks, editingId.value, draft);
        editingId := None;
      } else {
        if WellFormed(tasks) {
          PrependPreservesWellFormed(tasks, freshId, draft);
        }
        tasks := [NewTask(freshId, draft)] + tasks;
      }
      draft := DefaultDraft;
    }

    /** Editing starts on a listed task: the form is loaded with its fields. */
    method StartEditing(t: Task)
      requires Valid()
      requires t in tasks
      modifies this
      ensures Valid()
      ensures editingId == Some(t.id) && draft == DraftOf(t) && tasks == old(tasks)
    {
      editingId := Some(t.id);
      draft := DraftOf(t);
    }

    /** The editing session ends without saving; the form is reset. */
    method CancelEditing()
      requires Valid()
      modifies this
      ensures Valid()
      ensures editingId == None && draft == DefaultDraft && tasks == old(tasks)
    {
      editingId := None;
      draft := DefaultDraft;
    }

    /** Flips the completed flag of the tasks with `id`. */
    method Toggle(id: Id)
      requires Valid()
      modifies this
      ensures Valid()
      ensures tasks == Toggled(old(tasks), id)
      ensures draft == old(draft) && editingId == old(editingId)
      ensures WellFormed(old(tasks)) ==> WellFormed(tasks)
    {
      if WellFormed(tasks) {
        ToggledPreservesWellFormed(tasks, id);
      }
      tasks := Toggled(tasks, id);
    }

    /** Removes every task with `id`; deleting the task being edited also
        ends the session and resets the form. */
    method Delete(id: Id)
      requires Valid()
      modifies this
      ensures Valid()
      ensures tasks == Filter(old(tasks), IdIsNot(id))
      ensures old(editingId) == Some(id) ==> editingId == None && draft == DefaultDraft
      ensures old(editingId) != Some(id) ==> editingId == old(editingId) && draft == old(draft)
      ensures WellFormed(old(tasks)) ==> WellFormed(tasks)
    {
      if WellFormed(tasks) {
        FilterPreservesWellFormed(tasks, IdIsNot(id));
      }
      if editingId.Some? && editingId.value != id {
        KeptIdSurvives(tasks, id, editingId.value);
      }
      tasks := Filter(tasks, IdIsNot(id));
      if editingId == Some(id) {
        // as CancelEditing
        editingId := None;
        draft := DefaultDraft;
      }
    }
  }

  /** A task whose id differs from the deleted one stays in the collection. */
  lemma KeptIdSurvives(tasks: seq<Task>, gone: Id, kept: Id)
    requires HasId(tasks, kept) && kept != gone
    ensures HasId(Filter(tasks, IdIsNot(gone)), kept)
  {
    var i :| 0 <= i < |tasks| && tasks[i].id == kept;
    FilterMembership(tasks, IdIsNot(gone));
    var r := Filter(tasks, IdIsNot(gone));
    assert tasks[i] in r;
    var j :| 0 <= j < |r| && r[j] == tasks[i];
  }

  /** Starting an edit and submitting the unchanged form leaves the
      collection as it was and ends the session. */
  method EditRoundTrip(s: TaskStore, t: Task, freshId: Id)
    requires s.Valid() && WellFormed(s.tasks)
    requires t in s.tasks && !HasId(s.tasks, freshId)
    modifies s
    ensures s.Valid()
    ensures s.tasks == old(s.tasks) && s.editingId == None && s.draft == DefaultDraft
  {
    s.StartEditing(t);
    assert s.draft.title == t.title != "";
    EditWithOwnDraftIsNoOp(s.tasks, t);
    s.Submit(freshId);
  }

  /** While editing, submitting a draft that differs from the edited task's
      fields always changes the list: the session's target is present. */
  method SubmitWhileEditingTakesEffect(s: TaskStore, freshId: Id)
    requires s.Valid() && s.editingId.Some?
    requires s.draft.title != "" && !HasId(s.tasks, freshId)
    requires forall i :: 0 <= i < |s.tasks| ==> DraftOf(s.tasks[i]) != s.draft
    modifies s
    ensures s.Valid() && s.editingId == None
    ensures |s.tasks| == |old(s.tasks)| && s.tasks != old(s.tasks)
  {
    var i :| 0 <= i < |s.tasks| && s.tasks[i].id == s.editingId.value;
    ghost var before := s.tasks;
    ghost var d := s.draft;
    s.Submit(freshId);
    assert DraftOf(s.tasks[i]) == d != DraftOf(before[i]);
  }

  /** Deleting the task being edited ends the session, so the next submit
      creates a task instead of updating one. */
  method DeleteWhileEditing(s: TaskStore, t: Task, d: Draft, freshId: Id)
    requires s.Valid()
    requires t in s.tasks && d.title != "" && !HasId(s.tasks, freshId)
    modifies s
    ensures s.Valid()
    ensures s.tasks == [NewTask(freshId, d)] + Filter(old(s.tasks), IdIsNot(t.id))
  {
    s.StartEditing(t);
    s.Delete(t.id);
    assert s.editingId == None;
    FilterKeepsIdsOfNot(old(s.tasks), t.id, freshId);
    s.SetDraft(d);
    s.Submit(freshId);
  }

  lemma FilterKeepsIdsOfNot(tasks: seq<Task>, gone: Id, id: Id)
    requires !HasId(tasks, id)
    ensures !HasId(Filter(tasks, IdIsNot(gone)), id)
  {
  }
}
