/** The lane rules of the board page: what a drop onto a column does to the
    dragged task, and what a save of the edit form does to the task it names.
    The board class applies these to its task list; the expiration worker
    has its own rule (module Worker). */
module Transitions {
  import opened TaskModel

  /** The deadline exists and has not passed yet: `deadline > now`. */
  predicate NotYetDue(t: Task, now: int) {
    t.due.Some? && t.due.value > now
  }

  /** The deadline exists and has passed: `deadline < now`. */
  predicate PastDue(t: Task, now: int) {
    t.due.Some? && t.due.value < now
  }

  /** A drop that must wait for a new deadline: out of incomplete, or out of
      done once the deadline has passed, back into an active lane. */
  predicate NeedsRescue(t: Task, target: Lane, now: int) {
    IsActive(target) && (t.col == Incomplete || (t.col == Done && PastDue(t, now)))
  }

  /** The lane rules never put a task's annotation at odds with its lane:
      an active lane carries no lateness, 'missed' only sits in incomplete,
      'late_done' only in done or (after a manual move) incomplete. */
  ghost predicate Coherent(t: Task) {
    (IsActive(t.col) ==> t.lateStatus == NotLate) &&
    (t.lateStatus == Missed ==> t.col == Incomplete) &&
    (t.lateStatus == LateDone ==> t.col == Done || t.col == Incomplete)
  }

  ghost predicate AllCoherent(ts: seq<Task>) {
    forall i :: 0 <= i < |ts| ==> Coherent(ts[i])
  }

  /** Same task, same editable fields; only lane, annotation and log may differ. */
  predicate SameFields(t: Task, u: Task) {
    u.id == t.id && u.title == t.title && u.team == t.team && u.due == t.due
  }

  function MoveEntry(target: Lane, now: int): Entry {
    Entry(CURRENT_USER, "Moved to " + LaneId(target), now)
  }

  function RescueEntry(target: Lane, now: int): Entry {
    Entry(CURRENT_USER, "Rescued to " + LaneId(target) + " (Date Updated)", now)
  }

  function UpdateEntry(now: int): Entry {
    Entry(CURRENT_USER, "Updated", now)
  }

  /** logActivity: one "Moved to <lane>" record by the current user. */
  function LogActivity(t: Task, target: Lane, now: int): (r: Task)
    ensures SameFields(t, r) && r.col == t.col && r.lateStatus == t.lateStatus
    ensures r.history == t.history + [MoveEntry(target, now)]
  {
    t.(history := t.history + [MoveEntry(target, now)])
  }

  /** The committed move of a drop: log, annotation rule, then the lane. */
  function Commit(t: Task, target: Lane, now: int): (r: Task)
    ensures r.col == target && SameFields(t, r)
    ensures |r.history| == |t.history| + 1 && r.history[..|t.history|] == t.history
    ensures r.history[|t.history|] == MoveEntry(target, now)
    ensures target == Done ==>
              (r.lateStatus == LateDone <==> t.due.Some? && now > t.due.value) &&
              r.lateStatus != Missed
    ensures IsActive(target) ==> r.lateStatus == NotLate
    ensures target == Incomplete ==> r.lateStatus == t.lateStatus
    ensures Coherent(r)
  {
    var logged := LogActivity(t, target, now);
    var status :=
      if target == Done then
        (if t.due.Some? && now > t.due.value then LateDone else NotLate)
      else if target != Incomplete then NotLate
      else logged.lateStatus;
    logged.(lateStatus := status, col := target)
  }

  /** What a drop does with the task it finds. */
  datatype DropOutcome =
    | Ignored              // dropped on its own lane
    | Rejected             // into incomplete before the deadline
    | Deferred(lane: Lane) // rescue: waits for a new deadline
    | Committed(task: Task)

  /** drop, in the order the page checks its constraints. */
  function Drop(t: Task, target: Lane, now: int): (r: DropOutcome)
    ensures r == Ignored <==> target == t.col
    ensures r == Rejected <==> target != t.col && target == Incomplete && NotYetDue(t, now)
    ensures r.Deferred? <==> target != t.col && NeedsRescue(t, target, now)
    ensures r.Deferred? ==> r.lane == target && IsActive(r.lane)
    ensures r.Committed? ==> r.task == Commit(t, target, now)
  {
    if t.col == target then Ignored
    else if target == Incomplete && t.due.Some? && t.due.value > now then Rejected
    else if t.col == Incomplete && (target == Todo || target == Progress) then Deferred(target)
    else if t.col == Done && (target == Todo || target == Progress) && t.due.Some? && t.due.value < now then Deferred(target)
    else Committed(Commit(t, target, now))
  }

  /** The rescue branch of saveTask: the form's fields, the pending lane,
      annotation cleared, one "Rescued to" record. */
  function Rescue(t: Task, lane: Lane, title: string, team: seq<string>, due: Option<int>, now: int): (r: Task)
    ensures r.id == t.id && r.title == title && r.team == team && r.due == due
    ensures r.col == lane && r.lateStatus == NotLate
    ensures |r.history| == |t.history| + 1 && r.history[..|t.history|] == t.history
    ensures r.history[|t.history|] == RescueEntry(lane, now)
    ensures Coherent(r)
  {
    t.(title := title, team := team, due := due, col := lane, lateStatus := NotLate,
       history := t.history + [RescueEntry(lane, now)])
  }

  /** The plain-edit branch of saveTask: lane and annotation kept, one "Updated" record. */
  function Revise(t: Task, title: string, team: seq<string>, due: Option<int>, now: int): (r: Task)
    ensures r.id == t.id && r.title == title && r.team == team && r.due == due
    ensures r.col == t.col && r.lateStatus == t.lateStatus
    ensures |r.history| == |t.history| + 1 && r.history[..|t.history|] == t.history
    ensures r.history[|t.history|] == UpdateEntry(now)
    ensures Coherent(t) ==> Coherent(r)
  {
    t.(title := title, team := team, due := due, history := t.history + [UpdateEntry(now)])
  }

  /** The create branch of saveTask: a fresh task starts in todo with an empty log. */
  function NewTask(id: int, title: string, team: seq<string>, due: Option<int>): (r: Task)
    ensures r.id == id && r.title == title && r.team == team && r.due == due
    ensures r.col == Todo && r.lateStatus == NotLate && r.history == []
    ensures Coherent(r)
  {
    Task(id, title, team, Todo, due, NotLate, [])
  }

  /** saveTask's guard for a pending rescue: a due date strictly in the future. */
  predicate RescueAllowed(due: Option<int>, now: int) {
    due.Some? && due.value > now
  }

  /** A manual drop into incomplete of a task whose deadline is absent or
      not in the future is let through and keeps its annotation, so an
      incomplete task is not always 'missed'; the second clause is such a
      task, taken out of progress with no deadline. */
  lemma ManualIncompleteKeepsStatus(t: Task, now: int)
    requires t.col != Incomplete && !NotYetDue(t, now)
    ensures Drop(t, Incomplete, now).Committed? &&
            Drop(t, Incomplete, now).task.col == Incomplete &&
            Drop(t, Incomplete, now).task.lateStatus == t.lateStatus
    ensures var u := Task(t.id, t.title, t.team, Progress, None, NotLate, t.history);
            Drop(u, Incomplete, now).Committed? &&
            Drop(u, Incomplete, now).task.col == Incomplete &&
            Drop(u, Incomplete, now).task.lateStatus == NotLate
  {
  }
}
