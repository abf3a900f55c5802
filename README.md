# Task board lifecycle, in Dafny

This project models the task lifecycle of a four-lane task board. The lanes are `todo`, `progress`, `incomplete` and `done`. It has three parts.

- **The board page** (`script.js`). Modules `Transitions` and `Board`.
  - `drop` decides what happens to a card dropped on a column. It either ignores the drop, rejects it, defers it as a *rescue*, or commits the move.
  - `saveTask` finishes a pending rescue, edits a task, or creates one.
  - `openModal`, `closeModal` and `editTask` set or keep the pending rescue lane, `pendingDropCol`.
  - `deleteTask`, `save` and the worker's `TASKS_EXPIRED` hand-off are modelled too.
- **The expiration worker** (`modules/worker-manager.js`, and its verbatim copy inlined at `script.js:6-43`). Module `Worker`.
  - The worker keeps its own copy of the list. It replaces the copy on `INIT_TASKS`/`UPDATE_TASKS`.
  - Each tick it moves every overdue task that is not done or incomplete into incomplete, marks it `missed` and logs a `System` record.
  - It posts the list back only when something changed.
  - The worker code is modelled once. The page side (`initWorker`, `syncWorker`, `onmessage` → `setTasks`) is module `WorkerManager`.
- **The task store** (`modules/store.js`). Module `Store`. It holds an owned list with replace, append, update-by-id, remove-by-id and find, plus subscribers that are called in registration order after every change.

Shared data, in module `TaskModel`:
- a `Task` record;
- `Lane` and `LateStatus` (`NotLate`, `Missed`, `LateDone` for `'none'`, `'missed'`, `'late_done'`);
- activity `Entry` records;
- the `find`/`findIndex`/`filter` lookups by id.

Times are integers (milliseconds), and a due date is `Option<int>`. One `now` parameter stands for the clock reading of an operation. It serves both as the time compared against and as the timestamp of the records the operation writes.

Local storage is a field holding the last list written. The messages posted to the worker are a log field. Subscribers are integer handles, and their calls are a log of `Delivery` records. Where the page and the store mutate their arrays, the classes reassign their `seq` fields with the new list.

The invariant the lane rules keep is `Transitions.Coherent`:
- an active lane carries no lateness;
- `missed` occurs only in incomplete;
- `late_done` occurs only in done or incomplete.

Every board operation that changes the list on its own preserves it. The worker's scan preserves it too (`Board.ScanKeepsCoherent`). A `TASKS_EXPIRED` list received from the worker is coherent on the board when it was coherent as sent (`Board.TaskBoard.ReceiveWorkerMessage`). The list loaded at page start is taken as it was saved, and nothing is proved about it.

Four points where the code's behaviour is easy to misread; the model follows the code on each:
- **Incomplete does not imply missed.** A manual drop into incomplete is let through when the task has no deadline or its deadline has passed, and it keeps the task's old `lateStatus` (`script.js:258-263`, `293`). `Transitions.ManualIncompleteKeepsStatus` proves this for every such task, and gives one that ends up in incomplete and is not `missed`. `Coherent` is the weaker invariant the code does keep.
- **No deadline does not block a drop into incomplete.** Only an existing deadline that is still in the future does (`script.js:259`).
- **Done to incomplete is allowed.** A drop from done into incomplete commits when the deadline is absent or not in the future.
- **The pending rescue holds only a lane, not a task.** `saveTask` applies it to whatever id the form holds. `editTask` keeps it on purpose (`script.js:195-198`), even when opening another task. `Board.RescueFollowsForm` shows the consequence: such a save rescues that other task.

## Model

| member | source | states |
|---|---|---|
| `TaskModel.FindIndex` | modules/store.js:24 | the index of the first task with the id, or -1 exactly when no task has it |
| `TaskModel.FindTask` | modules/store.js:38-40 | the first task with the id, taken from the list; nothing exactly when no task has the id |
| `TaskModel.RemoveById` | modules/store.js:32-36 | the filtered list is no longer and holds only tasks of the list with another id |
| `TaskModel.RemoveByIdKeeps` | modules/store.js:33 | every task with another id survives the filter |
| `TaskModel.RemoveByIdAppend` | modules/store.js:33 | filtering distributes over concatenation, so survivors keep their relative order |
| `TaskModel.RemoveByIdAbsent` | modules/store.js:33 | removing an id no task has returns the list unchanged |
| `TaskModel.FindAfterRemove` | modules/store.js:32-40 | after removing an id, find returns nothing for it |
| `TaskModel.FindAfterAppend` | modules/store.js:17-40 | a task appended under a fresh id is found at the end, and is the one found |
| `TaskModel.FindAfterReplace` | modules/store.js:23-30 | after replacing the first match, find returns the new version |
| `Transitions.LogActivity` | script.js:84-87 | appends exactly one "Moved to <lane>" record by the current user; nothing else changes |
| `Transitions.Commit` | script.js:288-297 | the committed move: lane = target, exactly one "Moved to" record after the intact old log, `late_done` iff moving to done with `now > due`, `none` for todo/progress, unchanged for incomplete; the result is coherent |
| `Transitions.Drop` | script.js:252-299 | the decision table: ignored iff same lane; rejected iff into incomplete with a deadline after now; deferred iff into todo/progress from incomplete, or from done with a deadline before now; otherwise the commit |
| `Transitions.Rescue` | script.js:177-181 | the rescued task takes the form's fields and the pending lane, `lateStatus = none`, and one "Rescued to <lane> (Date Updated)" record after its old log |
| `Transitions.Revise` | script.js:182-186 | a plain edit takes the form's fields, keeps lane and `lateStatus`, appends one "Updated" record, and keeps coherence |
| `Transitions.NewTask` | script.js:188 | a new task starts in todo, `lateStatus = none`, with an empty log |
| `Transitions.ManualIncompleteKeepsStatus` | script.js:258-297 | a task outside incomplete whose deadline is absent or not in the future, dropped into incomplete, is committed there with its `lateStatus` unchanged; a task taken out of progress with no deadline ends up in incomplete as `none` |
| `Worker.Expire` | modules/worker-manager.js:17-34 | an overdue task (deadline before now, not done or incomplete) goes to incomplete, `missed`, with one System "Moved to incomplete (Expired)" record; any other task is unchanged; the result is not overdue |
| `Worker.ExpireAll` | modules/worker-manager.js:17-34 | one scan expires each position independently; afterwards nothing is overdue |
| `Worker.Scan` | modules/worker-manager.js:14-34 | the tick's loop over a snapshot yields the scanned list, and its `changed` flag is set iff some task was overdue, iff the list changed |
| `Worker.ScanChangesIffOverdue` | modules/worker-manager.js:15-35 | the scan changes the list exactly when some task was overdue |
| `Worker.ScanIdempotent` | modules/worker-manager.js:20-22 | scanning twice at the same instant equals scanning once |
| `Worker.ScanOnlyOriginatesIncomplete` | modules/worker-manager.js:20-30 | the scan moves a task only into incomplete, keeps its id and only extends its log |
| `Worker.ExpirationWorker.constructor` | modules/worker-manager.js:11-12 | the worker starts with no snapshot |
| `Worker.ExpirationWorker.OnMessage` | modules/worker-manager.js:4-8 | INIT_TASKS and UPDATE_TASKS replace the working copy wholesale; any other message is ignored |
| `Worker.ExpirationWorker.Tick` | modules/worker-manager.js:11-39 | with no snapshot, nothing happens; otherwise the copy becomes the scanned list, and one TASKS_EXPIRED message with the whole list is posted iff some task was overdue |
| `Worker.TickTwice` | modules/worker-manager.js:20-37 | a second tick at the same instant posts nothing and changes nothing |
| `Store.Fanout` | modules/store.js:50-52 | one delivery per subscriber, in registration order, each with the current list |
| `Store.TaskStore.constructor` | modules/store.js:4-5 | the saved list, or an empty one; no subscribers |
| `Store.TaskStore.FindTask` | modules/store.js:38-40 | the first task of the store with the id (no earlier task carries it), or nothing exactly when none has it |
| `Store.TaskStore.Subscribe` | modules/store.js:46-48 | the callback is appended to the subscribers; nothing else changes |
| `Store.TaskStore.SaveToStorage` | modules/store.js:42-44 | storage holds the current list; nothing else changes |
| `Store.TaskStore.NotifySubscribers` | modules/store.js:50-52 | every subscriber is called once, in registration order, with the current list |
| `Store.TaskStore.SetTasks` | modules/store.js:11-15 | the list becomes exactly the given one, is stored, and all subscribers receive it |
| `Store.TaskStore.AddTask` | modules/store.js:17-21 | the task is appended after the unchanged old list, then stored and delivered |
| `Store.TaskStore.UpdateTask` | modules/store.js:23-30 | only the first task with the id is replaced, then stored and delivered; with no such task nothing at all happens |
| `Store.TaskStore.RemoveTask` | modules/store.js:32-36 | the list becomes the id-filtered list, then is stored and delivered, even when nothing was removed |
| `WorkerManager.Manager.constructor` | modules/worker-manager.js:42 | no worker yet |
| `WorkerManager.Manager.SyncWorker` | modules/worker-manager.js:57-61 | when a worker exists, its copy becomes the list; otherwise nothing happens |
| `WorkerManager.Manager.InitWorker` | modules/worker-manager.js:44-55 | a fresh worker whose copy is the initial list |
| `WorkerManager.Manager.OnWorkerMessage` | modules/worker-manager.js:48-52 | a TASKS_EXPIRED list replaces the store's list through setTasks; other messages leave the store alone |
| `WorkerManager.Manager.ExpireRound` | modules/worker-manager.js:44-61 | push, tick, hand-off: the store ends with the scanned list, stored and delivered once to the same subscribers, iff something expired, and is untouched otherwise |
| `Board.TaskBoard.constructor` | script.js:58-69 | the saved list or an empty one, no rescue pending, an empty form, and the list posted to the worker |
| `Board.TaskBoard.Save` | script.js:301-305 | storage holds the list; it is posted to the worker unless `sync` is false |
| `Board.TaskBoard.OpenModal` | script.js:218-231 | no rescue pending and an empty form id; the tasks are unchanged |
| `Board.TaskBoard.CloseModal` | script.js:233-236 | no rescue pending; everything else unchanged, so clearing twice equals clearing once |
| `Board.TaskBoard.EditTask` | script.js:195-212 | the form takes the task's id when the task exists; the pending rescue is kept; nothing else changes |
| `Board.TaskBoard.DeleteTask` | script.js:214-216 | after confirmation the list is the id-filtered list, stored and posted; without it nothing changes; coherence is kept |
| `Board.TaskBoard.Drop` | script.js:242-299 | applies the decision table to the first task with the id: no change when it is missing, ignored or rejected; a deferral sets the pending lane and the form id only; a commit replaces that task by the committed one, stores and posts; logs only grow and coherence is kept |
| `Board.TaskBoard.SaveTask` | script.js:153-193 | empty title, a pending rescue without a strictly future due date, or a form id no task has: no change at all; otherwise the rescue, the edit or the new task is written at the right position, the pending rescue is cleared, the list is stored and posted; logs only grow and coherence is kept |
| `Board.TaskBoard.ReceiveWorkerMessage` | script.js:49-54 | a TASKS_EXPIRED list becomes the board's list and is stored without being posted back; other messages change nothing; a coherent received list leaves the board coherent |
| `Board.ScanKeepsCoherent` | modules/worker-manager.js:20-22 | the worker's scan keeps every task coherent |
| `Board.RescueOutlastsScan` | script.js:162-170 | after a rescue the worker leaves the task alone at every tick up to the new deadline |
| `Board.ReopenOutlastsScan` | script.js:274-285 | a done task dragged to todo/progress commits iff its deadline has not passed, and then the worker would not expire it at that instant |
| `Board.RescueFlow` | script.js:266-272 | an incomplete task dragged to todo/progress is deferred; saving it with a later deadline puts it there, `none`, with one "Rescued to" record after its old log |
| `Board.CancelledRescue` | script.js:233-236 | drag out of incomplete, close the dialog, save: a plain edit; the task stays in incomplete |
| `Board.RescueFollowsForm` | script.js:195-198 | drag task A out of incomplete, open task B, save with a future date: B is the task rescued |

## Left out

- Rendering is not modelled: `renderBoard`, `createCard`, `createAvatarGroup`, `renderActivityLog`, `switchView`, `filterTasks`, `toggleTheme` and `updateAnalytics` are string, HTML and canvas drawing with no lane logic.
- JSON persistence is not modelled: local storage is a field holding the list last written, so the serialisation round trip is out of scope; `resetData` and the page reload are left out.
- Worker timing and concurrency are not modelled: `Blob`, `new Worker`, the one-second `setInterval` and asynchronous message delivery are replaced by explicit calls (`OnMessage`, `Tick(now)`), and the race between a rescue and a concurrent tick is not modelled (it is last-write-wins with no reconciliation).
- Date parsing is not modelled: due dates are integer timestamps, an empty due field is `None`, and an unparsable date string is out of scope.
- Dialogs are inputs and outcomes: `confirm` is a boolean parameter. The alerts at `script.js:159`, `167` and `260` end an operation that changes nothing, and the model returns a rejecting outcome. The alerts at `script.js:270` and `282` follow a deferral that has already set `pendingDropCol` and filled the form. The model's `Deferred` outcome carries that state change.
- The drop target is a `Lane`: a drop outside any column (`colDiv` null) and column ids other than the four lanes are not modelled.
- Thrown errors become outcomes: where the page would throw on an id no task has (`t.col` in `drop`, `t.id` in `editTask`, `history.push` in `saveTask`), it does so before writing anything, and the model returns a "not found" outcome with no change.
- The history field is always present in the model. `logActivity` (`script.js:85`) and the worker (`modules/worker-manager.js:25`) treat a missing history as empty. `saveTask` pushes onto the history without that guard (`script.js:180`, `183`), so the page would throw on such a record when it is edited. That throw is not modelled.
- `getSelectedTeam` is not modelled: the team list is a parameter, and the "Unassigned" normalisation of an empty team is left out.
- A new task's id is a parameter standing for `Date.now()`: its uniqueness is not modelled.
- `getTasks` is not modelled as an operation: it returns the store's own array, through which a caller could mutate the list without a notification; the model's `tasks` field is that list.
- Subscriber callbacks are not modelled: they are handles, and a callback that re-enters the store during notification is out of scope.
- `modules/main.js` is not modelled: it is event wiring, and the `event-handlers.js` and `ui.js` modules it imports are not part of this model.
- 32-bit or floating-point limits of JavaScript numbers are not modelled: timestamps and ids are unbounded integers.
