/** The task store of the modular page: the owned task list, its copy in
    local storage, and the subscribers called after every change. */
module Store {
  import opened TaskModel

  /** A registered callback, identified by a handle; what the callback
      itself does is not part of the store. */
  type Subscriber = int

  /** One call of a subscriber with the list it was handed. */
  datatype Delivery = Delivery(subscriber: Subscriber, tasks: seq<Task>)

  /** notifySubscribers' fan-out: every subscriber once, in registration order. */
  function Fanout(subs: seq<Subscriber>, ts: seq<Task>): (r: seq<Delivery>)
    ensures |r| == |subs|
    ensures forall i :: 0 <= i < |subs| ==> r[i].subscriber == subs[i] && r[i].tasks == ts
  {
    seq(|subs|, i requires 0 <= i < |subs| => Delivery(subs[i], ts))
  }

  class TaskStore {
    var tasks: seq<Task>
    var subscribers: seq<Subscriber>
    /** What saveToStorage last wrote; None until the first write of a fresh session. */
    var stored: Option<seq<Task>>
    /** Every subscriber call so far, oldest first. */
    var deliveries: seq<Delivery>

    /** Module load: the saved list, or an empty one when nothing was saved. */
    constructor(saved: Option<seq<Task>>)
      ensures tasks == saved.GetOr([]) && stored == saved
      ensures subscribers == [] && deliveries == []
    {
      tasks := saved.GetOr([]);
      stored := saved;
      subscribers := [];
      deliveries := [];
    }

    /** findTask: the first task with the id, or nothing. */
    function FindTask(id: int): (r: Option<Task>)
      reads this
      ensures r.None? <==> forall i :: 0 <= i < |tasks| ==> tasks[i].id != id
      ensures r.Some? ==> r.value in tasks && r.value.id == id
      ensures r.Some? ==> exists k :: 0 <= k < |tasks| && tasks[k] == r.value &&
                                      forall i :: 0 <= i < k ==> tasks[i].id != id
    {
      TaskModel.FindTask(tasks, id)
    }

    method Subscribe(s: Subscriber)
      modifies this
      ensures subscribers == old(subscribers) + [s]
      ensures tasks == old(tasks) && stored == old(stored) && deliveries == old(deliveries)
    {
      subscribers := subscribers + [s];
    }

    method SaveToStorage()
      modifies this
      ensures stored == Some(tasks)
      ensures tasks == old(tasks) && subscribers == old(subscribers) && deliveries == old(deliveries)
    {
      stored := Some(tasks);
    }

    method NotifySubscribers()
      modifies this
      ensures deliveries == old(deliveries) + Fanout(subscribers, tasks)
      ensures tasks == old(tasks) && subscribers == old(subscribers) && stored == old(stored)
    {
      for i := 0 to |subscribers|
        invariant tasks == old(tasks) && subscribers == old(subscribers) && stored == old(stored)
        invariant deliveries == old(deliveries) + Fanout(subscribers[..i], tasks)
      {
        deliveries := deliveries + [Delivery(subscribers[i], tasks)];
        assert Fanout(subscribers[..i + 1], tasks) == Fanout(subscribers[..i], tasks) + [Delivery(subscribers[i], tasks)];
      }
      assert subscribers[..|subscribers|] == subscribers;
    }

    /** setTasks: the list becomes exactly the one given, then save and notify. */
    method SetTasks(ts: seq<Task>)
      modifies this
      ensures tasks == ts && stored == Some(ts)
      ensures subscribers == old(subscribers)
      ensures deliveries == old(deliveries) + Fanout(subscribers, ts)
    {
      tasks := ts;
      SaveToStorage();
      NotifySubscribers();
    }

    /** addTask: appended at the end, nothing before it moves. */
    method AddTask(t: Task)
      modifies this
      ensures tasks == old(tasks) + [t] && stored == Some(tasks)
      ensures subscribers == old(subscribers)
      ensures deliveries == old(deliveries) + Fanout(subscribers, tasks)
    {
      tasks := tasks + [t];
      SaveToStorage();
      NotifySubscribers();
    }

    /** updateTask: the first task with the same id is replaced; without one, nothing happens. */
    method UpdateTask(t: Task)
      modifies this
      ensures FindIndex(old(tasks), t.id) == -1 ==> unchanged(this)
      ensures FindIndex(old(tasks), t.id) != -1 ==>
                tasks == old(tasks)[FindIndex(old(tasks), t.id) := t] &&
                stored == Some(tasks) && subscribers == old(subscribers) &&
                deliveries == old(deliveries) + Fanout(subscribers, tasks)
    {
      var idx := FindIndex(tasks, t.id);
      if idx != -1 {
        tasks := tasks[idx := t];
        SaveToStorage();
        NotifySubscribers();
      }
    }

    /** removeTask: every task with the id goes, the rest keep their order; always saves and notifies. */
    method RemoveTask(id: int)
      modifies this
      ensures tasks == RemoveById(old(tasks), id) && stored == Some(tasks)
      ensures subscribers == old(subscribers)
      ensures deliveries == old(deliveries) + Fanout(subscribers, tasks)
    {
      tasks := RemoveById(tasks, id);
      SaveToStorage();
      NotifySubscribers();
    }
  }
}
