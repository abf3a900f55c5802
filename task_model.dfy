/** The task record shared by the board, the expiration worker and the store,
    and the list lookups (find, findIndex, filter by id) that all three use. */
module TaskModel {

  datatype Option<+T> = None | Some(value: T) {
    function GetOr(default: T): T {
      match this
      case Some(v) => v
      case None => default
    }
  }

  /** The four board columns; `LaneId` gives the column id used in the page. */
  datatype Lane = Todo | Progress | Incomplete | Done

  function LaneId(l: Lane): string {
    match l
    case Todo => "todo"
    case Progress => "progress"
    case Incomplete => "incomplete"
    case Done => "done"
  }

  /** The lanes a rescue may move a task back into. */
  predicate IsActive(l: Lane) {
    l == Todo || l == Progress
  }

  /** The annotation kept beside the lane: 'none', 'missed', 'late_done'. */
  datatype LateStatus = NotLate | Missed | LateDone

  /** One activity-log record: who, what, when (milliseconds). */
  datatype Entry = Entry(user: string, action: string, timestamp: int)

  /** `due` is the parsed deadline; None stands for an empty due field.
      Every record carries a history (possibly empty). */
  datatype Task = Task(
    id: int,
    title: string,
    team: seq<string>,
    col: Lane,
    due: Option<int>,
    lateStatus: LateStatus,
    history: seq<Entry>)

  const TEAM_OPTIONS: seq<string> :=
    ["Unassigned", "Alex Design", "Sam Dev", "Jordan PM", "Riley QA", "Project Lead"]
  const CURRENT_USER: string := TEAM_OPTIONS[5]

  /** Array.prototype.findIndex with `t.id == id`. */
  function FindIndex(ts: seq<Task>, id: int): (r: int)
    ensures -1 <= r < |ts|
    ensures r == -1 <==> forall i :: 0 <= i < |ts| ==> ts[i].id != id
    ensures 0 <= r ==> ts[r].id == id && forall i :: 0 <= i < r ==> ts[i].id != id
  {
    if ts == [] then -1
    else if ts[0].id == id then 0
    else
      var k := FindIndex(ts[1..], id);
      if k == -1 then -1 else k + 1
  }

  /** Array.prototype.find with `t.id == id`: the first task carrying the id. */
  function FindTask(ts: seq<Task>, id: int): (r: Option<Task>)
    ensures r.None? <==> forall i :: 0 <= i < |ts| ==> ts[i].id != id
    ensures r.Some? ==> r.value in ts && r.value.id == id
    ensures r.Some? ==> exists k :: 0 <= k < |ts| && ts[k] == r.value &&
                                    forall i :: 0 <= i < k ==> ts[i].id != id
  {
    var k := FindIndex(ts, id);
    if k == -1 then None else Some(ts[k])
  }

  /** `ts.filter(t => t.id != id)`. */
  function RemoveById(ts: seq<Task>, id: int): (r: seq<Task>)
    ensures |r| <= |ts|
    ensures forall t :: t in r ==> t in ts && t.id != id
  {
    if ts == [] then []
    else (if ts[0].id != id then [ts[0]] else []) + RemoveById(ts[1..], id)
  }

  /** Every task with another id survives the filter. */
  lemma {:induction false} RemoveByIdKeeps(ts: seq<Task>, id: int, t: Task)
    requires t in ts && t.id != id
    ensures t in RemoveById(ts, id)
  {
    if ts[0] != t {
      RemoveByIdKeeps(ts[1..], id, t);
    }
  }

  /** The filter works piecewise, so it keeps the relative order of what survives. */
  lemma {:induction false} RemoveByIdAppend(a: seq<Task>, b: seq<Task>, id: int)
    ensures RemoveById(a + b, id) == RemoveById(a, id) + RemoveById(b, id)
  {
    if a != [] {
      assert (a + b)[1..] == a[1..] + b;
      RemoveByIdAppend(a[1..], b, id);
    } else {
      assert a + b == b;
    }
  }

  /** Removing an id nothing carries gives the same list back. */
  lemma {:induction false} RemoveByIdAbsent(ts: seq<Task>, id: int)
    requires forall i :: 0 <= i < |ts| ==> ts[i].id != id
    ensures RemoveById(ts, id) == ts
  {
    if ts != [] {
      RemoveByIdAbsent(ts[1..], id);
    }
  }

  /** After removal the id cannot be found any more. */
  lemma FindAfterRemove(ts: seq<Task>, id: int)
    ensures FindTask(RemoveById(ts, id), id) == None
  {
  }

  /** A task appended under a fresh id is found, and it is the one appended. */
  lemma FindAfterAppend(ts: seq<Task>, t: Task)
    requires forall i :: 0 <= i < |ts| ==> ts[i].id != t.id
    ensures FindTask(ts + [t], t.id) == Some(t)
    ensures FindIndex(ts + [t], t.id) == |ts|
  {
    var ts' := ts + [t];
    assert ts'[|ts|].id == t.id;
    assert forall i :: 0 <= i < |ts| ==> ts'[i].id != t.id;
  }

  /** Replacing the first match with a task of the same id makes that task the one found. */
  lemma FindAfterReplace(ts: seq<Task>, t: Task)
    requires FindIndex(ts, t.id) != -1
    ensures FindTask(ts[FindIndex(ts, t.id) := t], t.id) == Some(t)
  {
    var k := FindIndex(ts, t.id);
    var ts' := ts[k := t];
    assert ts'[k].id == t.id;
    assert forall i :: 0 <= i < k ==> ts'[i] == ts[i];
    assert FindIndex(ts', t.id) == k;
  }
}
