/** The task record, the editing draft, and the three list operations the
    task handlers are built from: map-by-id (edit, toggle) and filter
    (delete, subject view, completed count). */
module TaskModel {

  /** The closed set of subjects the form offers. */
  datatype Subject = Math | Science | History | Language | Coding | Other

  datatype Priority = Low | Medium | High

  datatype Option<+T> = None | Some(value: T)

  /** Ids are millisecond timestamps taken at creation, hence positive: a
      present id is always truthy, so `if (editingId)` is `editingId.Some?`. */
  type Id = i: int | 0 < i witness 1

  /** A calendar date as a day number; the empty deadline string is `None`. */
  type Day = int

  /** The four form fields of a task being created or edited. */
  datatype Draft = Draft(title: string, subject: Subject, deadline: Option<Day>, priority: Priority)

  datatype Task = Task(id: Id, title: string, subject: Subject, deadline: Option<Day>,
                       priority: Priority, completed: bool)

  /** The form's initial and reset value. */
  const DefaultDraft := Draft("", Math, None, Medium)

  /** The record a submit while idle creates: a pending task holding the
      draft's four fields. */
  function NewTask(id: Id, d: Draft): (t: Task)
    ensures t.id == id && !t.completed && DraftOf(t) == d
  {
    Task(id, d.title, d.subject, d.deadline, d.priority, false)
  }

  /** The form fields of a task, as loaded when editing starts. */
  function DraftOf(t: Task): Draft {
    Draft(t.title, t.subject, t.deadline, t.priority)
  }

  /** `{ ...t, ...draft }`: the draft's four fields over the task's, so id and
      completed survive; writing back a task's own fields changes nothing. */
  function WithDraft(t: Task, d: Draft): (r: Task)
    ensures r.id == t.id && r.completed == t.completed && DraftOf(r) == d
    ensures d == DraftOf(t) ==> r == t
  {
    t.(title := d.title, subject := d.subject, deadline := d.deadline, priority := d.priority)
  }

  /** The draft holds exactly the editable fields: with id and completed, it
      determines the task. */
  lemma DraftOfIsTheEditableFields(t: Task, u: Task)
    requires t.id == u.id && t.completed == u.completed
    ensures DraftOf(t) == DraftOf(u) <==> t == u
  {
  }

  predicate HasId(tasks: seq<Task>, id: Id) {
    exists i :: 0 <= i < |tasks| && tasks[i].id == id
  }

  ghost predicate UniqueIds(tasks: seq<Task>) {
    forall i, j :: 0 <= i < j < |tasks| ==> tasks[i].id != tasks[j].id
  }

  ghost predicate Titled(tasks: seq<Task>) {
    forall i :: 0 <= i < |tasks| ==> tasks[i].title != ""
  }

  /** The collection invariant: unique ids, no empty title. */
  ghost predicate WellFormed(tasks: seq<Task>) {
    UniqueIds(tasks) && Titled(tasks)
  }

  /** The predicates the source passes to `filter`. */
  datatype Keep = SubjectIs(subject: Subject) | IdIsNot(id: Id) | IsCompleted | IsPending

  predicate Holds(k: Keep, t: Task) {
    match k
    case SubjectIs(s) => t.subject == s
    case IdIsNot(id) => t.id != id
    case IsCompleted => t.completed
    case IsPending => !t.completed
  }

  /** `tasks.filter(k)`, front to back. */
  function Filter(tasks: seq<Task>, k: Keep): (r: seq<Task>)
    ensures |r| <= |tasks|
    ensures forall i :: 0 <= i < |r| ==> Holds(k, r[i])
  {
    if tasks == [] then []
    else if Holds(k, tasks[0]) then [tasks[0]] + Filter(tasks[1..], k)
    else Filter(tasks[1..], k)
  }

  /** `r` can be obtained from `s` by dropping elements, keeping the order. */
  ghost predicate IsSubsequence(r: seq<Task>, s: seq<Task>)
    decreases |s|
  {
    if r == [] then true
    else if s == [] then false
    else (r[0] == s[0] && IsSubsequence(r[1..], s[1..])) || IsSubsequence(r, s[1..])
  }

  /** `tasks.map(t => t.id === id ? { ...t, ...d } : t)`. */
  function Edited(tasks: seq<Task>, id: Id, d: Draft): (r: seq<Task>)
    ensures |r| == |tasks|
    ensures forall i :: 0 <= i < |tasks| ==>
              r[i].id == tasks[i].id && r[i].completed == tasks[i].completed
    ensures forall i :: 0 <= i < |tasks| && tasks[i].id == id ==> DraftOf(r[i]) == d
    ensures forall i :: 0 <= i < |tasks| && tasks[i].id != id ==> r[i] == tasks[i]
  {
    if tasks == [] then []
    else [if tasks[0].id == id then WithDraft(tasks[0], d) else tasks[0]] + Edited(tasks[1..], id, d)
  }

  /** `tasks.map(t => t.id === id ? { ...t, completed: !t.completed } : t)`. */
  function Toggled(tasks: seq<Task>, id: Id): (r: seq<Task>)
    ensures |r| == |tasks|
    ensures forall i :: 0 <= i < |tasks| ==>
              r[i].(completed := tasks[i].completed) == tasks[i] &&
              r[i].completed == (tasks[i].completed != (tasks[i].id == id))
  {
    if tasks == [] then []
    else [if tasks[0].id == id then tasks[0].(completed := !tasks[0].completed) else tasks[0]]
         + Toggled(tasks[1..], id)
  }

  // ---------------------------------------------------------------- filter

  lemma {:induction false} FilterIsSubsequence(tasks: seq<Task>, k: Keep)
    ensures IsSubsequence(Filter(tasks, k), tasks)
    decreases |tasks|
  {
    if tasks != [] {
      FilterIsSubsequence(tasks[1..], k);
      var r := Filter(tasks, k);
      if Holds(k, tasks[0]) {
        assert r[0] == tasks[0] && r[1..] == Filter(tasks[1..], k);
      } else {
        assert r == Filter(tasks[1..], k);
      }
    }
  }

  /** Filter keeps every occurrence of a task that satisfies `k`, and
      nothing else. */
  lemma {:induction false} FilterCounts(tasks: seq<Task>, k: Keep)
    ensures forall t :: multiset(Filter(tasks, k))[t] == if Holds(k, t) then multiset(tasks)[t] else 0
    decreases |tasks|
  {
    if tasks != [] {
      FilterCounts(tasks[1..], k);
      assert tasks == [tasks[0]] + tasks[1..];
    }
  }

  lemma {:induction false} FilterMembership(tasks: seq<Task>, k: Keep)
    ensures forall t :: t in Filter(tasks, k) <==> t in tasks && Holds(k, t)
  {
    FilterCounts(tasks, k);
    forall t ensures t in Filter(tasks, k) <==> t in tasks && Holds(k, t) {
      assert t in Filter(tasks, k) <==> multiset(Filter(tasks, k))[t] > 0;
      assert t in tasks <==> multiset(tasks)[t] > 0;
    }
  }

  /** Filter returns its input exactly when every element passes. */
  lemma {:induction false} FilterKeepsAll(tasks: seq<Task>, k: Keep)
    ensures Filter(tasks, k) == tasks <==> forall i :: 0 <= i < |tasks| ==> Holds(k, tasks[i])
    decreases |tasks|
  {
    if tasks != [] {
      FilterKeepsAll(tasks[1..], k);
      if !Holds(k, tasks[0]) {
        assert |Filter(tasks, k)| < |tasks|;
      } else if forall i :: 0 <= i < |tasks| ==> Holds(k, tasks[i]) {
        assert forall i :: 0 <= i < |tasks[1..]| ==> Holds(k, tasks[1..][i]) by {
          forall i | 0 <= i < |tasks[1..]| ensures Holds(k, tasks[1..][i]) {
            assert tasks[1..][i] == tasks[i + 1];
          }
        }
        assert tasks == [tasks[0]] + tasks[1..];
      }
    }
  }

  /** Every task is either completed or pending. */
  lemma {:induction false} CompletedPendingPartition(tasks: seq<Task>)
    ensures |Filter(tasks, IsCompleted)| + |Filter(tasks, IsPending)| == |tasks|
    decreases |tasks|
  {
    if tasks != [] {
      CompletedPendingPartition(tasks[1..]);
    }
  }

  /** With unique ids, filtering out a present id removes exactly one task. */
  lemma {:induction false} RemoveIdRemovesOne(tasks: seq<Task>, id: Id)
    requires UniqueIds(tasks)
    requires HasId(tasks, id)
    ensures |Filter(tasks, IdIsNot(id))| == |tasks| - 1
    decreases |tasks|
  {
    var rest := tasks[1..];
    assert UniqueIds(rest) by {
      forall i, j | 0 <= i < j < |rest| ensures rest[i].id != rest[j].id {
        assert rest[i] == tasks[i + 1] && rest[j] == tasks[j + 1];
      }
    }
    if tasks[0].id == id {
      forall i | 0 <= i < |rest| ensures Holds(IdIsNot(id), rest[i]) {
        assert rest[i] == tasks[i + 1];
      }
      FilterKeepsAll(rest, IdIsNot(id));
    } else {
      var i :| 0 <= i < |tasks| && tasks[i].id == id;
      assert rest[i - 1] == tasks[i];
      RemoveIdRemovesOne(rest, id);
    }
  }

  /** Filtering can only lose ids. */
  lemma FilterKeepsIdsOf(tasks: seq<Task>, k: Keep, id: Id)
    requires HasId(Filter(tasks, k), id)
    ensures HasId(tasks, id)
  {
    var r := Filter(tasks, k);
    var i :| 0 <= i < |r| && r[i].id == id;
    FilterMembership(tasks, k);
    assert r[i] in tasks;
    var j :| 0 <= j < |tasks| && tasks[j] == r[i];
  }

  lemma {:induction false} FilterPreservesWellFormed(tasks: seq<Task>, k: Keep)
    requires WellFormed(tasks)
    ensures WellFormed(Filter(tasks, k))
    decreases |tasks|
  {
    if tasks != [] {
      var rest := tasks[1..];
      assert WellFormed(rest) by {
        forall i, j | 0 <= i < j < |rest| ensures rest[i].id != rest[j].id {
          assert rest[i] == tasks[i + 1] && rest[j] == tasks[j + 1];
        }
        forall i | 0 <= i < |rest| ensures rest[i].title != "" {
          assert rest[i] == tasks[i + 1];
        }
      }
      FilterPreservesWellFormed(rest, k);
      if Holds(k, tasks[0]) {
        var tail := Filter(rest, k);
        assert !HasId(tail, tasks[0].id) by {
          if HasId(tail, tasks[0].id) {
            FilterKeepsIdsOf(rest, k, tasks[0].id);
            assert false;
          }
        }
        var r := [tasks[0]] + tail;
        forall i, j | 0 <= i < j < |r| ensures r[i].id != r[j].id {
          if i == 0 {
            assert r[j] == tail[j - 1];
          } else {
            assert r[i] == tail[i - 1] && r[j] == tail[j - 1];
          }
        }
        forall i | 0 <= i < |r| ensures r[i].title != "" {
          if i > 0 { assert r[i] == tail[i - 1]; }
        }
      }
    }
  }

  // ------------------------------------------------------------- map by id

  /** An id that is not present makes edit, toggle and delete no-ops. */
  lemma {:induction false} AbsentIdIsNoOp(tasks: seq<Task>, id: Id, d: Draft)
    requires !HasId(tasks, id)
    ensures Edited(tasks, id, d) == tasks
    ensures Toggled(tasks, id) == tasks
    ensures Filter(tasks, IdIsNot(id)) == tasks
  {
    FilterKeepsAll(tasks, IdIsNot(id));
    var t := Toggled(tasks, id);
    forall i | 0 <= i < |tasks| ensures t[i] == tasks[i] {
      assert t[i].(completed := tasks[i].completed) == tasks[i];
    }
  }

  /** Toggling the same id twice restores the collection. */
  lemma ToggleTwice(tasks: seq<Task>, id: Id)
    ensures Toggled(Toggled(tasks, id), id) == tasks
  {
  }

  /** Editing a task with its own form fields changes nothing. */
  lemma EditWithOwnDraftIsNoOp(tasks: seq<Task>, t: Task)
    requires UniqueIds(tasks)
    requires t in tasks
    ensures Edited(tasks, t.id, DraftOf(t)) == tasks
  {
  }

  lemma PrependPreservesWellFormed(tasks: seq<Task>, id: Id, d: Draft)
    requires WellFormed(tasks)
    requires !HasId(tasks, id)
    requires d.title != ""
    ensures WellFormed([NewTask(id, d)] + tasks)
  {
  }

  lemma EditedPreservesWellFormed(tasks: seq<Task>, id: Id, d: Draft)
    requires WellFormed(tasks)
    requires d.title != ""
    ensures WellFormed(Edited(tasks, id, d))
  {
  }

  lemma ToggledPreservesWellFormed(tasks: seq<Task>, id: Id)
    requires WellFormed(tasks)
    ensures WellFormed(Toggled(tasks, id))
  {
  }
}
