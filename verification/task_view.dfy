/** Read-only views derived from the task collection on every render: the
    subject-filtered list, the completed/pending counts, the rounded progress
    percentage, and the overdue flag. */
module TaskView {
  import opened TaskModel

  // ------------------------------------------------------- filtered list

  /** The subject selector: every subject, or just one. */
  datatype SubjectFilter = All | Only(subject: Subject)

  predicate Matches(f: SubjectFilter, t: Task) {
    f.All? || t.subject == f.subject
  }

  /** The list shown under the filter selector. */
  function FilteredTasks(tasks: seq<Task>, f: SubjectFilter): (r: seq<Task>)
    ensures |r| <= |tasks|
    ensures forall i :: 0 <= i < |r| ==> Matches(f, r[i])
  {
    match f
    case All => tasks
    case Only(s) => Filter(tasks, SubjectIs(s))
  }

  /** The view is the order-preserving subsequence of the tasks that match the
      filter, every matching occurrence kept; `All` gives the list itself. */
  lemma FilteredTasksSpec(tasks: seq<Task>, f: SubjectFilter)
    ensures IsSubsequence(FilteredTasks(tasks, f), tasks)
    ensures forall t :: multiset(FilteredTasks(tasks, f))[t] ==
                        if Matches(f, t) then multiset(tasks)[t] else 0
    ensures forall t :: t in FilteredTasks(tasks, f) <==> t in tasks && Matches(f, t)
    ensures f.All? ==> FilteredTasks(tasks, f) == tasks
  {
    match f
    case All =>
      SubsequenceOfItself(tasks);
    case Only(s) =>
      FilterIsSubsequence(tasks, SubjectIs(s));
      FilterCounts(tasks, SubjectIs(s));
      FilterMembership(tasks, SubjectIs(s));
  }

  lemma {:induction false} SubsequenceOfItself(s: seq<Task>)
    ensures IsSubsequence(s, s)
    decreases |s|
  {
    if s != [] {
      SubsequenceOfItself(s[1..]);
    }
  }

  // -------------------------------------------------------------- counts

  function CompletedCount(tasks: seq<Task>): (r: nat)
    ensures r <= |tasks|
  {
    |Filter(tasks, IsCompleted)|
  }

  /** The "Pending" figure: total minus completed. */
  function PendingCount(tasks: seq<Task>): (r: nat)
    ensures r + CompletedCount(tasks) == |tasks|
  {
    |tasks| - CompletedCount(tasks)
  }

  /** The counts mean what their labels say: completed counts the tasks
      marked done, pending the ones that are not. */
  lemma {:induction false} CountsSpec(tasks: seq<Task>)
    ensures PendingCount(tasks) == |Filter(tasks, IsPending)|
    ensures CompletedCount(tasks) == |tasks| <==> forall i :: 0 <= i < |tasks| ==> tasks[i].completed
    ensures CompletedCount(tasks) == 0 <==> forall i :: 0 <= i < |tasks| ==> !tasks[i].completed
  {
    CompletedPendingPartition(tasks);
    FilterKeepsAll(tasks, IsCompleted);
    FilterKeepsAll(tasks, IsPending);
    FilterMembership(tasks, IsCompleted);
    FilterMembership(tasks, IsPending);
    forall i | 0 <= i < |tasks|
      ensures tasks[i] in Filter(tasks, if tasks[i].completed then IsCompleted else IsPending)
    {
    }
  }

  /** With unique ids, toggling a present task moves the completed count by
      exactly one, up for a pending task and down for a completed one. */
  lemma {:induction false} ToggleShiftsCompletedCount(tasks: seq<Task>, i: nat)
    requires UniqueIds(tasks) && i < |tasks|
    ensures CompletedCount(Toggled(tasks, tasks[i].id)) ==
            if tasks[i].completed then CompletedCount(tasks) - 1 else CompletedCount(tasks) + 1
    decreases |tasks|
  {
    var id, rest := tasks[i].id, tasks[1..];
    var r := Toggled(tasks, id);
    assert r == [r[0]] + Toggled(rest, id);
    assert tasks == [tasks[0]] + rest;
    CompletedCountCons(r[0], Toggled(rest, id));
    CompletedCountCons(tasks[0], rest);
    assert UniqueIds(rest) by {
      forall a, b | 0 <= a < b < |rest| ensures rest[a].id != rest[b].id {
        assert rest[a] == tasks[a + 1] && rest[b] == tasks[b + 1];
      }
    }
    if i == 0 {
      assert !HasId(rest, id) by {
        forall j | 0 <= j < |rest| ensures rest[j].id != id {
          assert rest[j] == tasks[j + 1];
        }
      }
      AbsentIdIsNoOp(rest, id, DefaultDraft);
    } else {
      assert rest[i - 1] == tasks[i];
      ToggleShiftsCompletedCount(rest, i - 1);
    }
  }

  lemma CompletedCountCons(t: Task, rest: seq<Task>)
    ensures CompletedCount([t] + rest) == (if t.completed then 1 else 0) + CompletedCount(rest)
  {
    assert ([t] + rest)[1..] == rest;
  }

  // ------------------------------------------------------------ progress

  /** `Math.round(part / whole * 100)` on exact rationals: the integer nearest
      to 100 * part / whole, halves rounded up. */
  function RoundedPercent(part: nat, whole: nat): (r: nat)
    requires 0 < whole && part <= whole
    ensures r <= 100
    ensures 2 * whole * r <= 200 * part + whole < 2 * whole * (r + 1)
  {
    var n, d := 200 * part + whole, 2 * whole;
    var q := n / d;
    assert d * q <= n < d * (q + 1);
    assert q <= 100 by {
      if q > 100 {
        MulMonotone(d, 101, q);
      }
    }
    q
  }

  lemma MulMonotone(d: nat, a: nat, b: nat)
    requires a <= b
    ensures d * a <= d * b
  {
  }

  /** The progress percentage; an empty list shows 0. */
  function Progress(tasks: seq<Task>): (r: nat)
    ensures r <= 100
  {
    if |tasks| == 0 then 0 else RoundedPercent(CompletedCount(tasks), |tasks|)
  }

  /** Progress shows 100 exactly when at most one task in 200 is pending. */
  lemma ProgressFull(tasks: seq<Task>)
    ensures Progress(tasks) == 100 <==> 0 < |tasks| && 200 * PendingCount(tasks) <= |tasks|
  {
    if 0 < |tasks| {
      var c, t, r := CompletedCount(tasks), |tasks|, Progress(tasks);
      if r == 100 {
        assert 200 * t <= 200 * c + t;
      } else {
        assert r <= 99;
        MulMonotone(2 * t, r + 1, 100);
        assert 200 * c + t < 200 * t;
      }
    }
  }

  /** Progress shows 0 exactly when fewer than one task in 200 is completed. */
  lemma ProgressZero(tasks: seq<Task>)
    ensures Progress(tasks) == 0 <==> |tasks| == 0 || 200 * CompletedCount(tasks) < |tasks|
  {
    if 0 < |tasks| {
      var c, t, r := CompletedCount(tasks), |tasks|, Progress(tasks);
      if r != 0 {
        MulMonotone(2 * t, 1, r);
      }
    }
  }

  /** Below 200 tasks, 100% means every task is done; at 200, one pending
      task among 199 done already shows 100%. */
  lemma ProgressFullMeansAllDone(tasks: seq<Task>)
    ensures (0 < |tasks| && forall i :: 0 <= i < |tasks| ==> tasks[i].completed) ==> Progress(tasks) == 100
    ensures |tasks| < 200 ==>
              (Progress(tasks) == 100 <==> 0 < |tasks| && forall i :: 0 <= i < |tasks| ==> tasks[i].completed)
    ensures |tasks| == 200 && CompletedCount(tasks) == 199 ==> Progress(tasks) == 100
  {
    ProgressFull(tasks);
    CountsSpec(tasks);
  }

  /** Up to 200 tasks, 0% means no task is done; with 201 tasks, one done
      still shows 0%. */
  lemma ProgressZeroMeansNoneDone(tasks: seq<Task>)
    ensures (forall i :: 0 <= i < |tasks| ==> !tasks[i].completed) ==> Progress(tasks) == 0
    ensures |tasks| <= 200 ==>
              (Progress(tasks) == 0 <==> forall i :: 0 <= i < |tasks| ==> !tasks[i].completed)
    ensures |tasks| == 201 && CompletedCount(tasks) == 1 ==> Progress(tasks) == 0
  {
    ProgressZero(tasks);
    CountsSpec(tasks);
  }

  // ------------------------------------------------------------- overdue

  /** A task's deadline has passed: it lies on a calendar day strictly before
      today. A same-day deadline is not overdue. */
  predicate IsOverdue(deadline: Option<Day>, today: Day) {
    match deadline
    case None => false
    case Some(d) => d < today
  }

  /** The list's overdue flag for a pending task (src/App.jsx:235), with the
      calendar-day test in place of the code's instant comparison;
      `ShownOverdueAsWritten` is the flag as the code computes it. */
  predicate ShownOverdue(t: Task, today: Day) {
    !t.completed && IsOverdue(t.deadline, today)
  }

  lemma OverdueSpec(deadline: Option<Day>, today: Day, later: Day)
    ensures deadline.None? ==> !IsOverdue(deadline, today)
    ensures !IsOverdue(Some(today), today)
    ensures IsOverdue(deadline, today) && today <= later ==> IsOverdue(deadline, later)
  {
  }

  lemma CompletedNeverShownOverdue(t: Task, today: Day)
    requires t.completed
    ensures !ShownOverdue(t, today)
  {
  }

  /** Milliseconds per day and per minute, as `Date` counts them. */
  const MsPerDay: int := 86_400_000
  const MsPerMinute: int := 60_000
  const MinutesPerDay: int := 1440

  /** The overdue test as the code computes it. The deadline string
      "YYYY-MM-DD" parses to midnight UTC of that day, while "today" is local
      midnight; `utcOffset` is the local zone's offset east of UTC, in
      minutes. At UTC or east of it this agrees with the calendar-day test;
      west of UTC a deadline counts as overdue from its own day on. */
  function IsOverdueAsWritten(deadline: Option<Day>, today: Day, utcOffset: int): (r: bool)
    ensures deadline.None? ==> !r
    ensures 0 <= utcOffset < MinutesPerDay ==> r == IsOverdue(deadline, today)
    ensures -MinutesPerDay < utcOffset < 0 ==> r == (deadline.Some? && deadline.value <= today)
  {
    match deadline
    case None => false
    case Some(d) => d * MsPerDay < today * MsPerDay - utcOffset * MsPerMinute
  }

  /** The list's overdue flag as the code computes it: never on a completed
      task, the intended flag at UTC or east of it, and already on the due
      day west of UTC. */
  function ShownOverdueAsWritten(t: Task, today: Day, utcOffset: int): (r: bool)
    ensures t.completed ==> !r
    ensures 0 <= utcOffset < MinutesPerDay ==> r == ShownOverdue(t, today)
    ensures -MinutesPerDay < utcOffset < 0 && !t.completed && t.deadline == Some(today) ==> r
  {
    !t.completed && IsOverdueAsWritten(t.deadline, today, utcOffset)
  }

  /** In UTC-5 a task due today is already shown as overdue. */
  lemma SameDayOverdueWestOfUtc(today: Day)
    ensures IsOverdueAsWritten(Some(today), today, -300)
    ensures !IsOverdue(Some(today), today)
  {
  }
}
