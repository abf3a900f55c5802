/** The page side of the expiration worker in the modular page: starting it,
    pushing snapshots to it, and handing its TASKS_EXPIRED list to the store. */
module WorkerManager {
  import opened TaskModel
  import opened Worker
  import opened Store

  class Manager {
    /** The module-level `worker`, unset until initWorker runs. */
    var worker: ExpirationWorker?

    constructor()
      ensures worker == null
    {
      worker := null;
    }

    /** syncWorker: post UPDATE_TASKS with the list, when there is a worker. */
    method SyncWorker(ts: seq<Task>)
      modifies worker
      ensures worker == old(worker)
      ensures worker != null ==> worker.tasks == Some(ts)
    {
      if worker != null {
        worker.OnMessage(Message(UPDATE_TASKS, ts));
      }
    }

    /** initWorker: a fresh worker that has been sent the initial list. */
    method InitWorker(initial: seq<Task>)
      modifies this
      ensures worker != null && fresh(worker)
      ensures worker.tasks == Some(initial)
    {
      worker := new ExpirationWorker();
      SyncWorker(initial);
    }

    /** worker.onmessage: a TASKS_EXPIRED list replaces the store's list;
        any other message leaves the store alone. */
    method OnWorkerMessage(store: TaskStore, msg: Message)
      modifies store
      ensures msg.kind == TASKS_EXPIRED ==>
                store.tasks == msg.tasks && store.stored == Some(msg.tasks) &&
                store.subscribers == old(store.subscribers) &&
                store.deliveries == old(store.deliveries) + Fanout(store.subscribers, msg.tasks)
      ensures msg.kind != TASKS_EXPIRED ==> unchanged(store)
    {
      if msg.kind == TASKS_EXPIRED {
        store.SetTasks(msg.tasks);
      }
    }

    /** One round of the monitor: the store's list is pushed, the worker
        ticks, and whatever it reports comes back through setTasks. The store
        ends with the scanned list when something expired, and is left alone
        otherwise. */
    method ExpireRound(store: TaskStore, now: int)
      requires worker != null && worker != store as object
      modifies worker, store
      ensures AnyOverdue(old(store.tasks), now) ==>
                store.tasks == ExpireAll(old(store.tasks), now) &&
                store.stored == Some(store.tasks) &&
                store.subscribers == old(store.subscribers) &&
                store.deliveries == old(store.deliveries) + Fanout(store.subscribers, store.tasks)
      ensures !AnyOverdue(old(store.tasks), now) ==> unchanged(store)
      ensures worker.tasks == Some(ExpireAll(old(store.tasks), now))
    {
      SyncWorker(store.tasks);
      var posted := worker.Tick(now);
      if posted.Some? {
        OnWorkerMessage(store, posted.value);
      }
    }
  }
}
