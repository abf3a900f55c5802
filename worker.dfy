/** The expiration worker: its own copy of the task list (replaced on
    INIT_TASKS / UPDATE_TASKS) and the once-a-second scan that moves every
    overdue task into incomplete and reports the list when anything moved.
    The page's inline copy of the worker is the same code. */
module Worker {
  import opened TaskModel

  const INIT_TASKS: string := "INIT_TASKS"
  const UPDATE_TASKS: string := "UPDATE_TASKS"
  const TASKS_EXPIRED: string := "TASKS_EXPIRED"

  /** A message between the page and the worker: its `type` and its task list. */
  datatype Message = Message(kind: string, tasks: seq<Task>)

  const SYSTEM_USER: string := "System"

  function ExpiredEntry(now: int): Entry {
    Entry(SYSTEM_USER, "Moved to incomplete (Expired)", now)
  }

  /** The scan's test: a deadline that has passed (`deadline < now`), and the
      task is neither done nor already incomplete. */
  predicate Overdue(t: Task, now: int) {
    t.due.Some? && t.due.value < now && t.col != Done && t.col != Incomplete
  }

  predicate AnyOverdue(ts: seq<Task>, now: int) {
    exists i :: 0 <= i < |ts| && Overdue(ts[i], now)
  }

  /** What the scan does to one task. */
  function Expire(t: Task, now: int): (r: Task)
    ensures Overdue(t, now) ==>
              r.col == Incomplete && r.lateStatus == Missed &&
              r.history == t.history + [ExpiredEntry(now)] &&
              r.id == t.id && r.title == t.title && r.team == t.team && r.due == t.due
    ensures !Overdue(t, now) ==> r == t
    ensures !Overdue(r, now)
  {
    if Overdue(t, now) then
      t.(col := Incomplete, lateStatus := Missed, history := t.history + [ExpiredEntry(now)])
    else t
  }

  /** What one scan does to the whole list, position by position. */
  function ExpireAll(ts: seq<Task>, now: int): (r: seq<Task>)
    ensures |r| == |ts|
    ensures forall i :: 0 <= i < |ts| ==> r[i] == Expire(ts[i], now)
    ensures !AnyOverdue(r, now)
  {
    seq(|ts|, i requires 0 <= i < |ts| => Expire(ts[i], now))
  }

  /** One tick over a snapshot: the new list and whether anything changed. */
  method Scan(ts: seq<Task>, now: int) returns (out: seq<Task>, changed: bool)
    ensures out == ExpireAll(ts, now)
    ensures changed <==> AnyOverdue(ts, now)
    ensures changed <==> out != ts
  {
    out := ts;
    changed := false;
    for i := 0 to |ts|
      invariant |out| == |ts|
      invariant forall j :: 0 <= j < i ==> out[j] == Expire(ts[j], now)
      invariant forall j :: i <= j < |ts| ==> out[j] == ts[j]
      invariant changed <==> exists j :: 0 <= j < i && Overdue(ts[j], now)
    {
      var t := out[i];
      if t.due.Some? && t.due.value < now && t.col != Done && t.col != Incomplete {
        out := out[i := t.(col := Incomplete, lateStatus := Missed,
                           history := t.history + [ExpiredEntry(now)])];
        changed := true;
      }
    }
    ScanChangesIffOverdue(ts, now);
  }

  /** The scan changes the list exactly when some task was overdue. */
  lemma ScanChangesIffOverdue(ts: seq<Task>, now: int)
    ensures ExpireAll(ts, now) != ts <==> AnyOverdue(ts, now)
  {
    if AnyOverdue(ts, now) {
      var i :| 0 <= i < |ts| && Overdue(ts[i], now);
      assert ExpireAll(ts, now)[i] != ts[i];
    } else {
      assert forall i :: 0 <= i < |ts| ==> ExpireAll(ts, now)[i] == ts[i];
    }
  }

  /** A second scan at the same instant finds nothing to do. */
  lemma ScanIdempotent(ts: seq<Task>, now: int)
    ensures ExpireAll(ExpireAll(ts, now), now) == ExpireAll(ts, now)
    ensures !AnyOverdue(ExpireAll(ts, now), now)
  {
  }

  /** The worker never sends a task anywhere but incomplete, and only adds to logs. */
  lemma ScanOnlyOriginatesIncomplete(ts: seq<Task>, now: int, i: int)
    requires 0 <= i < |ts|
    ensures ExpireAll(ts, now)[i].col == ts[i].col || ExpireAll(ts, now)[i].col == Incomplete
    ensures ts[i].history <= ExpireAll(ts, now)[i].history
    ensures ExpireAll(ts, now)[i].id == ts[i].id
  {
  }

  /** The worker's global scope: `self.tasks`, absent until the first snapshot. */
  class ExpirationWorker {
    var tasks: Option<seq<Task>>

    constructor()
      ensures tasks == None
    {
      tasks := None;
    }

    /** self.onmessage: a snapshot replaces the working copy; anything else is ignored. */
    method OnMessage(msg: Message)
      modifies this
      ensures msg.kind == INIT_TASKS || msg.kind == UPDATE_TASKS ==> tasks == Some(msg.tasks)
      ensures msg.kind != INIT_TASKS && msg.kind != UPDATE_TASKS ==> tasks == old(tasks)
    {
      if msg.kind == INIT_TASKS || msg.kind == UPDATE_TASKS {
        tasks := Some(msg.tasks);
      }
    }

    /** One interval tick at time `now`; the result is the message posted, if any. */
    method Tick(now: int) returns (posted: Option<Message>)
      modifies this
      ensures old(tasks).None? ==> tasks == None && posted == None
      ensures old(tasks).Some? ==>
                tasks == Some(ExpireAll(old(tasks).value, now)) &&
                posted == (if AnyOverdue(old(tasks).value, now)
                           then Some(Message(TASKS_EXPIRED, tasks.value)) else None)
    {
      posted := None;
      if tasks.None? {
        return;
      }
      var out, changed := Scan(tasks.value, now);
      tasks := Some(out);
      if changed {
        posted := Some(Message(TASKS_EXPIRED, out));
      }
    }
  }

  /** Two ticks at the same instant: the second one posts nothing and changes nothing. */
  method TickTwice(w: ExpirationWorker, now: int) returns (first: Option<Message>, second: Option<Message>)
    modifies w
    ensures second == None
    ensures w.tasks == (if old(w.tasks).None? then None else Some(ExpireAll(old(w.tasks).value, now)))
  {
    first := w.Tick(now);
    ghost var afterFirst := w.tasks;
    second := w.Tick(now);
    if afterFirst.Some? {
      ScanIdempotent(old(w.tasks).value, now);
    }
  }
}
