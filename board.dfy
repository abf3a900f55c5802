/** The board page: its global task list, the pending rescue lane
    (`pendingDropCol`), the id field of the edit form, the list it keeps in
    local storage and the snapshots it posts to the expiration worker. */
module Board {
  import opened TaskModel
  import opened Transitions
  import opened Worker

  /** How saveTask ended. */
  datatype SaveOutcome =
    | TitleRequired              // empty title: alert, nothing saved
    | FutureDueRequired          // rescue pending without a future due date: alert, nothing saved
    | TaskMissing                // the form names an id no task has: the page throws before writing
    | SavedEdit
    | SavedRescue(lane: Lane)
    | SavedNew

  /** No task's log lost or changed a record: every earlier position still
      holds the same task, whose log has only grown. */
  ghost predicate LogsExtended(before: seq<Task>, after: seq<Task>) {
    |before| <= |after| &&
    forall i :: 0 <= i < |before| ==> after[i].id == before[i].id && before[i].history <= after[i].history
  }

  class TaskBoard {
    var tasks: seq<Task>
    var pendingDropCol: Option<Lane>
    /** The hidden id field of the edit form; None when it is empty. */
    var formId: Option<int>
    /** What save() last wrote to local storage. */
    var stored: Option<seq<Task>>
    /** Every message posted to the worker, oldest first. */
    var posted: seq<Message>

    /** A rescue only ever waits to move a task into an active lane. */
    ghost predicate Valid()
      reads this
    {
      pendingDropCol.Some? ==> IsActive(pendingDropCol.value)
    }

    /** Page load: the saved list (or an empty one), no rescue pending, and
        the list sent to the worker. */
    constructor(saved: Option<seq<Task>>)
      ensures Valid()
      ensures tasks == saved.GetOr([]) && stored == saved
      ensures pendingDropCol == None && formId == None
      ensures posted == [Message(UPDATE_TASKS, tasks)]
    {
      tasks := saved.GetOr([]);
      stored := saved;
      pendingDropCol := None;
      formId := None;
      posted := [Message(UPDATE_TASKS, saved.GetOr([]))];
    }

    /** save(sync): write local storage, then post the list unless told not to. */
    method Save(sync: bool)
      modifies this
      ensures stored == Some(tasks)
      ensures posted == if sync then old(posted) + [Message(UPDATE_TASKS, tasks)] else old(posted)
      ensures tasks == old(tasks) && pendingDropCol == old(pendingDropCol) && formId == old(formId)
    {
      stored := Some(tasks);
      if sync {
        posted := posted + [Message(UPDATE_TASKS, tasks)];
      }
    }

    /** openModal: a blank form, and no rescue pending. */
    method OpenModal()
      requires Valid()
      modifies this
      ensures Valid()
      ensures pendingDropCol == None && formId == None
      ensures tasks == old(tasks) && stored == old(stored) && posted == old(posted)
    {
      pendingDropCol := None;
      formId := None;
    }

    /** closeModal: any pending rescue is dropped; the form keeps its id. */
    method CloseModal()
      requires Valid()
      modifies this
      ensures Valid()
      ensures pendingDropCol == None
      ensures tasks == old(tasks) && formId == old(formId) && stored == old(stored) && posted == old(posted)
    {
      pendingDropCol := None;
    }

    /** editTask: the form is filled from the task with the id; a pending
        rescue is kept so that a drop's rescue can finish. An id no task has
        makes the page throw before it touches anything. */
    method EditTask(id: int) returns (found: bool)
      requires Valid()
      modifies this
      ensures Valid()
      ensures found <==> FindIndex(old(tasks), id) != -1
      ensures formId == if found then Some(id) else old(formId)
      ensures pendingDropCol == old(pendingDropCol)
      ensures tasks == old(tasks) && stored == old(stored) && posted == old(posted)
    {
      var idx := FindIndex(tasks, id);
      found := idx != -1;
      if found {
        formId := Some(tasks[idx].id);
      }
    }

    /** deleteTask: after the confirmation, every task with the id goes. */
    method DeleteTask(id: int, confirmed: bool)
      requires Valid()
      modifies this
      ensures Valid()
      ensures !confirmed ==> unchanged(this)
      ensures confirmed ==>
                tasks == RemoveById(old(tasks), id) && stored == Some(tasks) &&
                posted == old(posted) + [Message(UPDATE_TASKS, tasks)] &&
                pendingDropCol == old(pendingDropCol) && formId == old(formId)
      ensures AllCoherent(old(tasks)) ==> AllCoherent(tasks)
    {
      if confirmed {
        tasks := RemoveById(tasks, id);
        Save(true);
      }
    }

    /** drop: the card with the id is dropped on the `target` column at time `now`. */
    method Drop(id: int, target: Lane, now: int) returns (found: bool, outcome: DropOutcome)
      requires Valid()
      modifies this
      ensures Valid()
      ensures found <==> FindIndex(old(tasks), id) != -1
      ensures !found ==> unchanged(this)
      ensures found ==> outcome == Transitions.Drop(old(tasks)[FindIndex(old(tasks), id)], target, now)
      ensures found && (outcome == Ignored || outcome == Rejected) ==> unchanged(this)
      ensures found && outcome.Deferred? ==>
                tasks == old(tasks) && pendingDropCol == Some(target) && formId == Some(id) &&
                stored == old(stored) && posted == old(posted)
      ensures found && outcome.Committed? ==>
                tasks == old(tasks)[FindIndex(old(tasks), id) := outcome.task] &&
                stored == Some(tasks) && posted == old(posted) + [Message(UPDATE_TASKS, tasks)] &&
                pendingDropCol == old(pendingDropCol) && formId == old(formId)
      ensures LogsExtended(old(tasks), tasks) && |tasks| == |old(tasks)|
      ensures AllCoherent(old(tasks)) ==> AllCoherent(tasks)
    {
      outcome := Ignored;
      var idx := FindIndex(tasks, id);
      found := idx != -1;
      if !found {
        return;
      }
      var t := tasks[idx];
      if t.col == target {
        return;
      }
      if target == Incomplete {
        if t.due.Some? && t.due.value > now {
          outcome := Rejected;
          return;
        }
      }
      if t.col == Incomplete && (target == Todo || target == Progress) {
        pendingDropCol := Some(target);
        formId := Some(t.id);
        outcome := Deferred(target);
        return;
      }
      if t.col == Done && (target == Todo || target == Progress) {
        if t.due.Some? && t.due.value < now {
          pendingDropCol := Some(target);
          formId := Some(t.id);
          outcome := Deferred(target);
          return;
        }
      }
      t := LogActivity(t, target, now);
      if target == Done {
        if t.due.Some? && now > t.due.value {
          t := t.(lateStatus := LateDone);
        } else {
          t := t.(lateStatus := NotLate);
        }
      } else if target != Incomplete {
        t := t.(lateStatus := NotLate);
      }
      t := t.(col := target);
      tasks := tasks[idx := t];
      outcome := Committed(t);
      Save(true);
    }

    /** saveTask with the form holding `title`, `team` and `due`; `newId` is
        the clock reading a new task takes as its id. */
    method SaveTask(title: string, team: seq<string>, due: Option<int>, now: int, newId: int)
      returns (outcome: SaveOutcome)
      requires Valid()
      modifies this
      ensures Valid()
      ensures outcome == TitleRequired <==> title == ""
      ensures outcome == FutureDueRequired <==>
                title != "" && old(pendingDropCol).Some? && !RescueAllowed(due, now)
      ensures outcome == TaskMissing <==>
                title != "" && (old(pendingDropCol).None? || RescueAllowed(due, now)) &&
                old(formId).Some? && FindIndex(old(tasks), old(formId).value) == -1
      ensures outcome in {TitleRequired, FutureDueRequired, TaskMissing} ==> unchanged(this)
      ensures outcome.SavedRescue? ==>
                old(formId).Some? && old(pendingDropCol) == Some(outcome.lane) &&
                var k := FindIndex(old(tasks), old(formId).value);
                0 <= k && tasks == old(tasks)[k := Rescue(old(tasks)[k], outcome.lane, title, team, due, now)]
      ensures outcome == SavedEdit ==>
                old(formId).Some? && old(pendingDropCol) == None &&
                var k := FindIndex(old(tasks), old(formId).value);
                0 <= k && tasks == old(tasks)[k := Revise(old(tasks)[k], title, team, due, now)]
      ensures outcome == SavedNew <==>
                title != "" && (old(pendingDropCol).None? || RescueAllowed(due, now)) && old(formId).None?
      ensures outcome == SavedNew ==> tasks == old(tasks) + [NewTask(newId, title, team, due)]
      ensures outcome !in {TitleRequired, FutureDueRequired, TaskMissing} ==>
                pendingDropCol == None && formId == old(formId) &&
                stored == Some(tasks) && posted == old(posted) + [Message(UPDATE_TASKS, tasks)]
      ensures LogsExtended(old(tasks), tasks)
      ensures AllCoherent(old(tasks)) ==> AllCoherent(tasks)
    {
      if title == "" {
        return TitleRequired;
      }
      if pendingDropCol.Some? {
        if !(due.Some? && due.value > now) {
          return FutureDueRequired;
        }
      }
      if formId.Some? {
        var idx := FindIndex(tasks, formId.value);
        if idx == -1 {
          return TaskMissing;
        }
        if pendingDropCol.Some? {
          var lane := pendingDropCol.value;
          tasks := tasks[idx := Rescue(tasks[idx], lane, title, team, due, now)];
          pendingDropCol := None;
          outcome := SavedRescue(lane);
        } else {
          tasks := tasks[idx := Revise(tasks[idx], title, team, due, now)];
          outcome := SavedEdit;
        }
      } else {
        tasks := tasks + [NewTask(newId, title, team, due)];
        outcome := SavedNew;
      }
      CloseModal();
      Save(true);
    }

    /** worker.onmessage: a TASKS_EXPIRED list becomes the board's list and
        is stored, without being posted back to the worker. */
    method ReceiveWorkerMessage(msg: Message)
      requires Valid()
      modifies this
      ensures Valid()
      ensures msg.kind != TASKS_EXPIRED ==> unchanged(this)
      ensures msg.kind == TASKS_EXPIRED ==>
                tasks == msg.tasks && stored == Some(msg.tasks) && posted == old(posted) &&
                pendingDropCol == old(pendingDropCol) && formId == old(formId)
      ensures msg.kind == TASKS_EXPIRED && AllCoherent(msg.tasks) ==> AllCoherent(tasks)
      ensures msg.kind != TASKS_EXPIRED && AllCoherent(old(tasks)) ==> AllCoherent(tasks)
    {
      if msg.kind == TASKS_EXPIRED {
        tasks := msg.tasks;
        Save(false);
      }
    }
  }

  /** The worker's scan keeps every task's annotation consistent with its lane. */
  lemma ScanKeepsCoherent(ts: seq<Task>, now: int)
    requires AllCoherent(ts)
    ensures AllCoherent(ExpireAll(ts, now))
  {
    forall i | 0 <= i < |ts|
      ensures Coherent(ExpireAll(ts, now)[i])
    {
      assert Coherent(ts[i]);
    }
  }

  /** A rescued task has a deadline after the rescue, so the worker leaves it
      alone at every tick up to that deadline. */
  lemma RescueOutlastsScan(t: Task, lane: Lane, title: string, team: seq<string>, due: Option<int>, now: int, later: int)
    requires RescueAllowed(due, now) && later <= due.value
    ensures Expire(Rescue(t, lane, title, team, due, now), later) == Rescue(t, lane, title, team, due, now)
  {
  }

  /** A done task reopened by a direct drop is never one the worker would
      expire at that same instant: an expired one is sent to the rescue instead. */
  lemma ReopenOutlastsScan(t: Task, target: Lane, now: int)
    requires t.col == Done && IsActive(target)
    ensures Transitions.Drop(t, target, now).Committed? <==> !PastDue(t, now)
    ensures Transitions.Drop(t, target, now).Committed? ==>
              Expire(Transitions.Drop(t, target, now).task, now) == Transitions.Drop(t, target, now).task
  {
  }

  /** An incomplete task dragged to an active lane waits for a rescue; saving
      it with a later deadline lands it there, cleared, with one "Rescued to"
      record after its old log. */
  lemma RescueFlow(t: Task, target: Lane, now: int, title: string, team: seq<string>, due: Option<int>, saveNow: int)
    requires t.col == Incomplete && IsActive(target) && RescueAllowed(due, saveNow)
    ensures Transitions.Drop(t, target, now) == Deferred(target)
    ensures var r := Rescue(t, target, title, team, due, saveNow);
            r.col == target && r.lateStatus == NotLate &&
            r.history == t.history + [Entry(CURRENT_USER, "Rescued to " + LaneId(target) + " (Date Updated)", saveNow)]
  {
    var r := Rescue(t, target, title, team, due, saveNow);
    assert r.history == r.history[..|t.history|] + [r.history[|t.history|]];
  }

  /** Dragging an incomplete task out, then closing the dialog: the next save
      of the same form is a plain edit, not a stale rescue. */
  method CancelledRescue(b: TaskBoard, id: int, target: Lane, now: int, title: string, due: Option<int>)
    returns (outcome: SaveOutcome)
    requires b.Valid() && IsActive(target) && title != ""
    requires FindTask(b.tasks, id).Some? && FindTask(b.tasks, id).value.col == Incomplete
    modifies b
    ensures outcome == SavedEdit
    ensures b.pendingDropCol == None
    ensures |b.tasks| == |old(b.tasks)|
    ensures var k := FindIndex(old(b.tasks), id);
            0 <= k < |b.tasks| && b.tasks[k].col == Incomplete && b.tasks[k].lateStatus == old(b.tasks)[k].lateStatus
  {
    var found, dropped := b.Drop(id, target, now);
    assert dropped == Deferred(target);
    b.CloseModal();
    outcome := b.SaveTask(title, [], due, now, 0);
  }

  /** editTask keeps a pending rescue whatever task it opens: a drop's rescue,
      then an edit of another task, then a save rescues that other task. */
  method RescueFollowsForm(b: TaskBoard, a: int, other: int, target: Lane, now: int, title: string, due: Option<int>)
    returns (outcome: SaveOutcome)
    requires b.Valid() && IsActive(target) && title != "" && RescueAllowed(due, now)
    requires FindTask(b.tasks, a).Some? && FindTask(b.tasks, a).value.col == Incomplete
    requires FindTask(b.tasks, other).Some?
    modifies b
    ensures outcome == SavedRescue(target)
    ensures |b.tasks| == |old(b.tasks)|
    ensures var k := FindIndex(old(b.tasks), other);
            0 <= k < |b.tasks| && b.tasks[k].col == target && b.tasks[k].id == other
  {
    var found, dropped := b.Drop(a, target, now);
    var edited := b.EditTask(other);
    outcome := b.SaveTask(title, [], due, now, 0);
  }
}
