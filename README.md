# Preemptive priority scheduling with aging

A Dafny model of two parts of the scheduling package, with proofs about each.

- **`BinaryHeap`** (src/scheduling/heap.py) is a min priority queue with lazy deletion, keyed by a unique string key.
  - Every insertion pushes a physical entry `(priority, counter, key, item)`. The insertion counter breaks ties between equal priorities, first in, first out.
  - A live index maps each live key to its entry.
  - Removing a key tombstones its entry in place.
  - Extraction and peeking discard the tombstones they meet at the front of the queue.
- **`PriorityAgingScheduler`** (src/scheduling/scheduler.py) simulates a preemptive priority scheduler, one tick at a time. Each tick:
  1. it admits the processes arriving at the current clock;
  2. if nothing runs, it dispatches the ready process with the least priority;
  3. it refreshes the head of the ready queue to its aged priority `max(1, base - waited // interval)`;
  4. it preempts the running process when the head's effective priority is strictly better;
  5. it executes one tick.

  The run stops when every process has completed, or when the clock reaches `max_time`. It then reports the timeline, each completed process's completion and waiting times, and the mean waiting time.

The model has four modules.

- **`Wrappers`:** `Option`, `Result` and `Outcome`. They carry the source's raised exceptions as values.
- **`Heap`:** the queue as a class.
  - The physical storage is an arena of entries keyed by their insertion counter. Each entry's slot is `Live(item)` or `Tombstone`.
  - The live index is a `map<string, nat>` from key to counter.
  - A ghost `Contents` is the live-set abstraction `key -> (priority, counter, item)`. `Valid()` ties it to the storage.
- **`Processes`:** the process record that the scheduler reads and writes, as a class. It also holds the intake order `(arrival, base_priority, pid)`, with Python's string order for pids, and a stable sort into that order.
- **`Scheduler`:** the tick loop, as methods over the process objects and the ready queue.
  - A ghost sequence `Progress` mirrors the fields the scheduler manages: `remaining`, `last_enqueued`, `start_time` and `completion_time`.
  - The loop invariant `Inv` has three parts.
    - The ready queue's live keys are exactly the admitted, incomplete processes other than the running one.
    - For each process, `remaining` is its burst less the ticks it has run.
    - Start and completion lie within the timeline, in order.
  - The loop terminates by `max_time`, or by the outstanding work of all processes plus the ticks until the last arrival.

Two behaviours of the source are stated as written, not corrected:

- `last_enqueued` is not reset when a process is dispatched. The running process's effective priority therefore keeps improving while it runs. `Scheduler.PreemptIfBetter` computes it from the `last_enqueued` the process had before the tick.
- Refreshing the head recomputes its priority from its own `last_enqueued`. A process that was requeued at a preemption had its `last_enqueued` set to that tick. Its refreshed priority can therefore be worse than the priority it was requeued with (`Scheduler.Aged`).

## Model

| member | source | states |
|---|---|---|
| Heap.BinaryHeap.constructor | src/scheduling/heap.py:15-18 | A new queue is valid, with empty storage, nothing live and counter 0. |
| Heap.BinaryHeap.Len | src/scheduling/heap.py:20-21 | The length is the number of live keys. |
| Heap.BinaryHeap.IsEmpty | src/scheduling/heap.py:23-24 | The queue is empty exactly when no key is live. |
| Heap.BinaryHeap.Insert | src/scheduling/heap.py:26-37 | Afterwards `key` is live with exactly the new priority, item and the old counter, and every other key is unchanged. The counter grows by one. Any earlier entry of `key` is tombstoned, and the new entry is added under the old counter. The size grows by one exactly when the key was new. The storage invariant is kept. |
| Heap.BinaryHeap.Push | src/scheduling/heap.py:34-37 | For a key that is not live, the new entry gets the current counter, becomes the key's live entry, and the counter is incremented. |
| Heap.BinaryHeap.Remove | src/scheduling/heap.py:39-41 | It fails with KeyNotFound exactly when `key` is not live. Otherwise the key leaves the index and the live set, its entry becomes a tombstone, the size drops by one, and no other live entry changes. |
| Heap.BinaryHeap.MinCounter | src/scheduling/heap.py:45 | The physical pop takes the entry least in `(priority, counter)` order among all stored entries. |
| Heap.BinaryHeap.SkipTombstones | src/scheduling/heap.py:44-56 | Leading tombstones are popped and the live set is unchanged. Afterwards the storage is empty (and nothing is live), or its least entry is live. Only tombstones that precede every remaining entry are dropped. |
| Heap.BinaryHeap.ExtractMin | src/scheduling/heap.py:43-49 | It fails with EmptyHeap exactly when nothing is live, and then the storage is drained. Otherwise it returns the item of the least live key in `(priority, counter)` order, and removes only that key. The storage keeps exactly the entries after it in heap order. |
| Heap.BinaryHeap.PeekMinPriority | src/scheduling/heap.py:51-58 | It fails with EmptyHeap exactly when nothing is live. Otherwise it returns the priority of the least live key, the one ExtractMin would return. The live set is unchanged, and only the tombstones before that entry are discarded. |
| Heap.LiveCountsDistinct | src/scheduling/heap.py:34-37 | Distinct live keys carry distinct insertion counters. |
| Heap.LeastIsUnique | src/scheduling/heap.py:43-48 | With distinct counters, the least live key is unique. |
| Heap.FifoAmongEqualPriorities | src/scheduling/heap.py:34-48 | Of two live entries with equal priorities, the later one is not extracted first. |
| Heap.RetireKeepsWf | src/scheduling/heap.py:39-41 | Tombstoning a live key's entry keeps the storage invariant and removes exactly that key from the live view. |
| Heap.PushKeepsWf | src/scheduling/heap.py:34-37 | Adding a new key's entry under the counter keeps the storage invariant and adds exactly that key to the live view. |
| Heap.DropTombstoneKeepsWf | src/scheduling/heap.py:54-56 | Popping a tombstone keeps the storage invariant and the live view. |
| Heap.DropLiveKeepsWf | src/scheduling/heap.py:45-47 | Popping a live entry and deleting its key keeps the storage invariant and removes only that key from the live view. |
| Heap.LiveMinIsLeast | src/scheduling/heap.py:45-48 | A least physical entry that is live belongs to the least live key. |
| Heap.DrainedIsFrom | src/scheduling/heap.py:44-48 | What remains after tombstones were skipped is exactly the entries from the live minimum onwards. |
| Heap.EmptyStorageNothingLive | src/scheduling/heap.py:44-49 | Empty storage under the invariant means nothing is live, so the error is raised only for an empty queue. |
| Processes.StrLeTotal | src/scheduling/scheduler.py:38 | Python's string order is total. |
| Processes.StrLeTransitive | src/scheduling/scheduler.py:38 | Python's string order is transitive. |
| Processes.StrLeAntisymmetric | src/scheduling/scheduler.py:38 | Python's string order is antisymmetric, so distinct pids are never tied. |
| Processes.IntakeLeTotal | src/scheduling/scheduler.py:38 | The key `(arrival, base_priority, pid)` orders any two processes. |
| Processes.IntakeLeTransitive | src/scheduling/scheduler.py:38 | The intake key order is transitive. |
| Processes.InsertForIntakeSorted | src/scheduling/scheduler.py:38 | Inserting into a sorted sequence keeps it sorted by the intake key. |
| Processes.InsertForIntakePermutes | src/scheduling/scheduler.py:38 | Insertion adds exactly the one process. |
| Processes.SortForIntakeCorrect | src/scheduling/scheduler.py:38 | The intake sort is a permutation of its input, ordered by `(arrival, base_priority, pid)`. |
| Processes.SortKeepsDistinct | src/scheduling/scheduler.py:38 | Sorting keeps pids distinct. |
| Scheduler.NewScheduler | src/scheduling/scheduler.py:28-31 | Construction fails exactly when the aging interval is not positive. Otherwise it keeps the interval, which defaults to 10. |
| Scheduler.EffPriority | src/scheduling/scheduler.py:52-55 | The effective priority lies between 1 and `max(1, base_priority)`. |
| Scheduler.EffPriorityUnaged | src/scheduling/scheduler.py:52-55 | Having waited less than one interval, a process has effective priority `max(1, base_priority)`. |
| Scheduler.EffPriorityNonIncreasing | src/scheduling/scheduler.py:52-55 | The effective priority never grows as `now` grows. |
| Scheduler.EffPriorityFullyAged | src/scheduling/scheduler.py:52-55 | After `interval * (base - 1)` ticks of waiting, the effective priority is 1. |
| Scheduler.Count | src/scheduling/scheduler.py:50 | A pid's executed ticks, counted in the timeline, never exceed the timeline's length. |
| Scheduler.CountAppend | src/scheduling/scheduler.py:104-106 | Appending a tick adds one to the count of exactly the pid that ran. |
| Scheduler.CountZero | src/scheduling/scheduler.py:104-106 | A pid with no executed ticks never appears in the timeline. |
| Scheduler.MapSumRemove | src/scheduling/scheduler.py:125 | The sum of the waiting times does not depend on the order in which they are added. |
| Scheduler.SumValues | src/scheduling/scheduler.py:125 | The loop computes the sum of the map's values. |
| Scheduler.MapSumNonNegative | src/scheduling/scheduler.py:125 | A sum of non-negative values is non-negative. |
| Scheduler.AverageWaitingTime | src/scheduling/scheduler.py:125 | The mean is the sum divided by the count, and 0 for no waiting times. |
| Scheduler.CompletedPidsExactly | src/scheduling/scheduler.py:115-123 | A key set made of exactly the completed processes' pids is the set of completed pids. |
| Scheduler.CollectStatistics | src/scheduling/scheduler.py:115-123 | The completion-time and waiting-time maps have the same keys: exactly the pids of the completed processes. The values are `completion_time` and `completion_time - arrival - burst`. |
| Scheduler.Completed | src/scheduling/scheduler.py:46 | The completion count never exceeds the number of processes. |
| Scheduler.CompletedUpdate | src/scheduling/scheduler.py:108-110 | Setting one process's fields changes the completion count by that process's change in completion. |
| Scheduler.AllCompleted | src/scheduling/scheduler.py:57 | A completion count equal to the number of processes means every one has completed. |
| Scheduler.SomeIncomplete | src/scheduling/scheduler.py:57 | While the loop condition holds, some process is incomplete. |
| Scheduler.NoneCompleted | src/scheduling/scheduler.py:46 | With no completion time set, the count starts at 0. |
| Scheduler.WorkUpdate | src/scheduling/scheduler.py:105-110 | Changing one process's fields changes the outstanding work by that process's change alone. |
| Scheduler.Enqueue | src/scheduling/scheduler.py:66 | Inserting a process keys it by pid with the given priority and the current counter. |
| Scheduler.Dequeue | src/scheduling/scheduler.py:72 | Extraction from a non-empty ready queue returns the least live process and removes only its pid. |
| Scheduler.PeekPriority | src/scheduling/scheduler.py:87 | Peeking a non-empty ready queue returns the least live priority and keeps the live set. |
| Scheduler.SetLastEnqueued | src/scheduling/scheduler.py:65 | Only `last_enqueued` of that process changes. |
| Scheduler.StartIfFirst | src/scheduling/scheduler.py:73-74 | The start time is set to the clock only when unset, and never overwritten. |
| Scheduler.SetRemaining | src/scheduling/scheduler.py:105 | Only `remaining` of that process changes. |
| Scheduler.SetCompletionTime | src/scheduling/scheduler.py:109 | Only `completion_time` of that process changes. |
| Scheduler.AdmitOne | src/scheduling/scheduler.py:64-68 | The next process in intake order gets `last_enqueued = clock`. It enters the ready queue under its pid with priority `(base_priority, arrival, 0)` and the current counter, and the counter grows by one. Every other entry is unchanged. The loop invariant and the outstanding work are kept. |
| Scheduler.EnqueuedAtStep | src/scheduling/scheduler.py:65 | After another admission, each admitted process's `last_enqueued` is still the clock. |
| Scheduler.EntersReadyStep | src/scheduling/scheduler.py:66 | After another admission, each admitted process is still live with its base priority and its own counter, and the entries that were ready before admission are unchanged. |
| Scheduler.AdmissionStep | src/scheduling/scheduler.py:63-68 | Admitting one more arrival extends `Admission` by that process, under the next counter. |
| Scheduler.ReadyKeysBelow | src/scheduling/scheduler.py:63-68 | Every ready key belongs to a process that intake has already passed, so the new arrivals are not yet in the queue. |
| Scheduler.AdmitNext | src/scheduling/scheduler.py:63-68 | One iteration of the admission loop keeps the invariant and extends `Admission` by the next arrival. |
| Scheduler.Admit | src/scheduling/scheduler.py:63-68 | Every process arriving at the clock is admitted, and no later one (`Admitted`). By `Admission`, each admitted process gets `last_enqueued = clock` and nothing else changes in the processes. The admitted processes are enqueued in intake order, each with `(base_priority, arrival, 0)` under consecutive counters from the old counter on. The counter grows by the number admitted. Entries that were already ready are unchanged. So among same-tick arrivals with equal priority the earlier one in intake order comes out first. The invariant is kept. |
| Scheduler.Dispatch | src/scheduling/scheduler.py:71-75 | Afterwards nothing runs exactly when nothing ran and nothing was ready. With nothing running and a non-empty queue, the least ready process is extracted, its start time is set if unset, and it runs. Otherwise nothing changes. The insertion counter is unchanged. |
| Scheduler.RefreshHead | src/scheduling/scheduler.py:81-83 | The least ready process is reinserted with priority `(eff_priority, arrival, 0)` under the next counter, and every other entry is unchanged. |
| Scheduler.Preempt | src/scheduling/scheduler.py:90-96 | The running process is requeued with `(cur_eff, arrival, 0)` under the current counter and gets `last_enqueued = clock`. The least ready process, which is never the preempted one, is extracted and runs, and its start time is set only if unset. The ready entries and the fields of every process are stated exactly: only those two processes change. |
| Scheduler.PreemptIfBetter | src/scheduling/scheduler.py:85-96 | Preemption happens exactly when the head's effective priority is strictly below the running process's. In that case the running process is requeued with `(cur_eff, arrival, 0)` and `last_enqueued = clock`. The head, which is never the preempted process, runs, and its start time is set only if unset. No other process's fields change, and the counter grows by one. Otherwise nothing changes. |
| Scheduler.PreemptionCheck | src/scheduling/scheduler.py:78-96 | When something runs and something is ready, the head is refreshed first. The preemption decision is then made against the refreshed queue, as in PreemptIfBetter. This includes the exact new ready entries and process fields, the start time set only if unset, and a counter grown by one per insertion. Otherwise nothing changes. Something runs afterwards exactly when something ran before. |
| Scheduler.ExecuteTick | src/scheduling/scheduler.py:98-113 | The clock advances by one. An idle tick appends the idle marker and changes nothing else. Otherwise the running pid is appended and its `remaining` drops by one. It completes at `clock + 1` exactly when `remaining <= 0`, and the completion count then grows by one. The outstanding work strictly decreases. |
| Scheduler.IdleBeforeLastArrival | src/scheduling/scheduler.py:57-63 | With nothing ready or running and some process incomplete, the last arrival is still ahead. This bounds a run without `max_time`. |
| Scheduler.PrepareTick | src/scheduling/scheduler.py:62-96 | After admission, dispatch and the preemption check the invariant holds. Nothing runs only when nothing is ready. |
| Scheduler.NotPastLastStep | src/scheduling/scheduler.py:57-113 | A tick executed while some process is incomplete ends with that process still incomplete, or with it completed at exactly the new clock. So the loop never runs a tick past the last completion. |
| Scheduler.Step | src/scheduling/scheduler.py:57-113 | One iteration of the loop, entered while some process is incomplete, advances the clock by one and keeps the invariant. It does not run past the last completion. It lessens the outstanding work, or, without `max_time`, it happens before the last arrival. |
| Scheduler.TickLoop | src/scheduling/scheduler.py:57-113 | The loop terminates with its invariant. With `max_time` the clock stays within `max(0, max_time)`. The loop ends with every process completed, or stopped by `max_time` at exactly that clock. It stops at the first tick after the last completion: at a clock past 0, some process is incomplete or completed at exactly that clock. |
| Scheduler.IntakeOrder | src/scheduling/scheduler.py:38-39 | The sorted list holds the same processes, in arrival order, with distinct pids. |
| Scheduler.StartKeeps | src/scheduling/scheduler.py:41-46 | The initial state satisfies the loop invariant. |
| Scheduler.Intake | src/scheduling/scheduler.py:38-46 | Setup yields the processes in intake order, an empty ready queue and nothing admitted, run or completed. |
| Scheduler.RunOutcome | src/scheduling/scheduler.py:57-113 | For the processes given, `remaining` is burst less ticks run. A process runs only between its start, which is not before its arrival, and its completion. A completed process ran for exactly its burst (one tick if the burst is not positive). |
| Scheduler.IdleOutcome | src/scheduling/scheduler.py:99-102 | With no negative arrival, an idle tick happens only when every arrived process has completed. |
| Scheduler.AllDone | src/scheduling/scheduler.py:57 | When the loop ends by its condition, every process has completed. |
| Scheduler.StatisticsOutcome | src/scheduling/scheduler.py:115-123 | The statistics computed over the sorted list describe the processes in the caller's list. |
| Scheduler.LastTickOutcome | src/scheduling/scheduler.py:57 | After at least one tick, some given process is incomplete or completed in the last tick. |
| Scheduler.RunFinish | src/scheduling/scheduler.py:57-123 | The loop's and the statistics pass's results together establish `Reported`, including the stop at the first tick after the last completion. |
| Scheduler.Report | src/scheduling/scheduler.py:115-123 | The completion and waiting maps satisfy `Reported` for the timeline. |
| Scheduler.Run | src/scheduling/scheduler.py:33-131 | An empty list gives an empty result with average 0. Otherwise the result satisfies `Reported`. The timeline is bounded by `max(0, max_time)`, and a process is left incomplete only when `max_time` stopped the run. The timeline's last tick is one in which some process completed, unless some process is incomplete. So without `max_time` the run stops at the first tick after the last completion. Every run tick names a given process, within its lifetime, and the tick accounting holds. When no arrival is negative, the processor idles only when everything that has arrived has completed. The maps hold exactly the completed processes. The average is the mean waiting time. |
| Scheduler.ReportedStopsAtLastCompletion | src/scheduling/scheduler.py:57 | Without `max_time`, every process completes within the timeline, and some process completes in its last tick. |
| Scheduler.ReportedWaitingNonNegative | src/scheduling/scheduler.py:115-123 | No reported waiting time is negative. |
| Scheduler.ReportedAverageNonNegative | src/scheduling/scheduler.py:125 | The reported average waiting time is never negative. |

## Left out

- `heapq`'s array layout and sift operations are not modelled. Storage is an arena keyed by insertion counter, and a physical pop takes the entry least in `(priority, counter)` order (Heap.BinaryHeap.MinCounter). Its time complexity is therefore not the source's.
- The identity-compared `_REMOVED` sentinel is the `Tombstone` slot.
- The items in the queue are generic; Python's `Any` payload is not modelled further.
- The `KeyError`s of `remove`, `extract_min` and `peek_min_priority` and the `ValueError` of `__init__` are `Outcome`/`Result` values, not exceptions.
- src/scheduling/process.py is not part of this model. `Process` declares the fields the scheduler uses, and no constructor. A run starts from unstarted processes (`Scheduler.Fresh`: `remaining == burst`, no start or completion time). No other defaults or validation are modelled.
- `first_seen` is never read and is dropped. `executed_ticks` is `Scheduler.Count` over the timeline.
- The timeline's `"IDLE"` string is the `Idle` constructor of `Tick`. A process whose pid is `"IDLE"` is therefore distinguishable from an idle tick in the model but not in the source.
- `average_waiting_time` is a `real`, not a floating-point number; rounding is not modelled.
- Scheduler.Run: it requires distinct pids. The ready queue is keyed by pid, so the source conflates processes with equal pids. For example, two processes with pid `X` arriving at 0: the second `insert` tombstones the first one's entry, so the first never runs. Without `max_time` the source then loops forever, since `completed < n_total` always holds.
- Scheduler.Run: it requires each process to be unstarted (`remaining == burst`, no start or completion time), as a freshly built process is. A reused process is not modelled.
- Scheduler.Run: it requires non-negative arrivals when `max_time` is absent. A process arriving before tick 0 is never admitted, and the source then loops forever.
- Scheduler.Run: its contract states the tick accounting, the stop point and the statistics, not which process runs in each tick. That choice is stated per step by Scheduler.Admit, Scheduler.Dispatch, Scheduler.RefreshHead, Scheduler.PreemptIfBetter, Scheduler.PreemptionCheck and Scheduler.ExecuteTick. Each of them states the new ready entries, the insertion counter and the process fields in full.
- Scheduler.PrepareTick: its contract keeps only the loop invariant. The admission, dispatch and preemption decisions are stated by the step methods it calls.
