# Task scheduler: verified model of the store and the scheduling engine

This project models the core of `task_scheduler`, a small Python task
scheduler, in Dafny. It covers three parts:

- **The store** (`task_scheduler/database.py`). The `tasks` table is a
  class `TaskStore.Database` holding a `map<int, Task>` from row id to row,
  plus the AUTOINCREMENT counter `nextId`.
  - `add_task` validates, then inserts.
  - `update_task_status`, `reschedule_task` and `delete_task` change the
    table in place.
  - `get_tasks` and `get_task_by_id` are read-only functions.
  - Every stored row satisfies the checks `add_task` made. That is the class
    invariant `Valid()`.
- **The scheduling engine** (`task_scheduler/scheduler.py`).
  - The `heapq` list is the class `Heap.HeapList`, an array whose in-place
    `Push` and `Pop` are proved equal to the list functions `PushLayout` and
    `PopLayout`. Those functions follow `heapq`'s own `_siftdown` and
    `_siftup`.
  - `build_queue` pushes one `(priority, due, id)` entry per pending row.
  - `run` pops until the list is empty and appends each id to `dispatched`,
    which stands for the submissions to the thread pool.
  - `_execute_task` performs status writes and notification attempts. Each
    one is appended to `log`, and the outcome of each external step is given
    as an `Outcome`.
- **The computing parts of the CLI** (`task_scheduler/cli.py`).
  - The status filter and the stable sort of `list_tasks`.
  - The `run_scheduler` loop, which takes index 0 of the list `build_queue`
    returned (list order, not heap order) and runs `_execute_task` on the
    calling thread.

Due dates stay text, as the store keeps them. What orders the queue is
`DueStamp`, the number YYYYMMDDhhmm. `DueDates.DueStampOrder` proves that
comparing stamps is the same as comparing the date texts.

Where the code behaves in a way its names and docstrings do not suggest,
the model follows the code:

- `_execute_task` can write twice. A failing success notification falls
  into the `except` branch, which writes "failed" after "completed". A
  failing failure notification escapes `_execute_task`
  (task_scheduler/scheduler.py:36-42). `Scheduling.TraceShape` and
  `Scheduling.Raises` state this.
- `build_queue` returns the `heapq` list itself, and only `run`'s `heappop`
  drain comes out sorted (`Heap.PopAllSorted`). The list that
  `run_scheduler` walks from index 0 equals the listing order in the model
  (`Scheduling.Scheduler.QueueIsListing`) for three reasons:
  - the model breaks ties of `(priority, due_date)` by id. Under another tie
    order the list need not be sorted (`Heap.PushOutOfOrderTies`);
  - the model's date check is the strict, zero-padded one. `strptime` also
    takes "2025-9-01 00:00", which `ORDER BY due_date` lists after
    "2025-10-01 00:00" although its timestamp is earlier
    (`DueDates.UnpaddedDateMisorders`). With such rows the listing and the
    pushed list disagree even without ties;
  - `timestamp()` is replaced by `DueStamp`, which follows the date text.
    The local-time `timestamp()` need not do so across a daylight-saving gap.

## Model

| member | source | states |
|---|---|---|
| Tasks.StatusNameInjective | task_scheduler/database.py:41 | the three status texts the CHECK constraint admits are distinct, so a status text determines the status |
| Tasks.TrimStart | task_scheduler/database.py:66 | the result is a suffix of the input, every dropped character is whitespace, and the result does not start with whitespace |
| Tasks.TrimEnd | task_scheduler/database.py:66 | the result is a prefix of the input, every dropped character is whitespace, and the result does not end with whitespace |
| Tasks.Strip | task_scheduler/database.py:66 | `str.strip()` never lengthens its input, and a non-empty result starts and ends with a non-whitespace character |
| Tasks.StripEmptyIffBlank | task_scheduler/database.py:66-67 | `name.strip()` is empty exactly when every character of the name is whitespace (both directions) |
| Tasks.CheckNewTask | task_scheduler/database.py:62-69 | the input is accepted iff the date parses, the priority is in 1..10 and the stripped name is non-empty; the date error wins over the priority error, which wins over the name error |
| Tasks.WellFormedAnyStatus | task_scheduler/database.py:115-120 | changing only a row's status keeps it a row that passed add_task's checks |
| Tasks.WellFormedDue | task_scheduler/database.py:63 | a stored row's due date parses and has the fixed "YYYY-MM-DD HH:MM" layout |
| DueDates.IsValidDueDate | task_scheduler/database.py:63 | an accepted date has the sixteen-character zero-padded layout, and February 29 is accepted only in a leap year |
| DueDates.UnpaddedDateMisorders | task_scheduler/database.py:63 | the unpadded "2025-9-01 00:00" is refused, and as text it sorts strictly after "2025-10-01 00:00" |
| DueDates.Number | task_scheduler/scheduler.py:59 | the decimal value of a digit string is below 10 to the power of its length |
| DueDates.DaysInMonth | task_scheduler/database.py:63 | every month has 28 to 31 days |
| DueDates.DigitsOf | task_scheduler/scheduler.py:59 | the due date's fields give exactly twelve digits |
| DueDates.DigitsOrder | task_scheduler/scheduler.py:59 | for digit strings of one length, text order agrees with numeric order, and equal text means an equal number |
| DueDates.DigitsDetermine | task_scheduler/scheduler.py:59 | two due dates with the same digits are the same date text |
| DueDates.TextOrderIsDigitOrder | task_scheduler/database.py:95 | comparing two due dates as text is comparing their digits as text |
| DueDates.DueStampOrder | task_scheduler/scheduler.py:59 | the queue's stamp orders due dates exactly as their text does (`ORDER BY due_date`), and equal stamps mean equal dates |
| Ordering.LexLeTotal | task_scheduler/scheduler.py:60 | any two keys are comparable under lexicographic order |
| Ordering.LexLeTransitive | task_scheduler/scheduler.py:60 | lexicographic order is transitive |
| Ordering.LexLeAntisymmetric | task_scheduler/scheduler.py:60 | keys that are each at most the other are equal |
| Ordering.SortBy | task_scheduler/cli.py:61-64 | `list.sort(key=...)` returns a permutation of its input |
| Ordering.SortBySorted | task_scheduler/cli.py:61-64 | the sort leaves keys in non-decreasing order |
| Ordering.SortByStable | task_scheduler/cli.py:61-64 | the sort is stable: for each key, the elements carrying it keep their relative order |
| Ordering.SortByKeyThenRank | task_scheduler/database.py:95 | stably sorting a sequence in increasing id order orders it by key, and equal keys by id |
| Ordering.SortedUnique | task_scheduler/scheduler.py:73-74 | two sorted permutations of each other are equal when the key identifies its element |
| TaskStore.ListedBefore | task_scheduler/database.py:95 | the listing order never puts a higher priority first and never relates a row to itself |
| TaskStore.RowKeyOrder | task_scheduler/database.py:95 | ordering by `(priority, due_date)` with ties broken by id is exactly the listing order `ListedBefore` |
| TaskStore.ScanFrom | task_scheduler/database.py:90 | the scan holds exactly the stored rows whose ids lie in the range |
| TaskStore.ScanIncreasing | task_scheduler/database.py:90 | the scan visits rows in strictly increasing id order |
| TaskStore.Select | task_scheduler/database.py:92-94 | `WHERE status = ?` keeps exactly the rows whose status text is the argument; a falsy argument keeps every row |
| TaskStore.SelectIncreasing | task_scheduler/database.py:92-94 | the selection keeps the scan's increasing id order |
| TaskStore.SetStatus | task_scheduler/database.py:115-120 | `UPDATE tasks SET status` keeps the key set, changes only the status of row `id`, and changes nothing when `id` is absent |
| TaskStore.SetStatusStored | task_scheduler/database.py:115-120 | a status write keeps the table invariant |
| TaskStore.Database.constructor | task_scheduler/database.py:11-18 | a fresh store is an empty table whose counter starts at 1 |
| TaskStore.Database.AddTask | task_scheduler/database.py:62-77 | on a rejected input it returns that error and leaves the table and counter unchanged; otherwise it returns the old counter value, which was not a key, inserts exactly a pending row with the given fields under it, grows the table by one and advances the counter |
| TaskStore.Database.GetTasks | task_scheduler/database.py:89-96 | the result holds exactly the stored rows of the requested status (all rows for a falsy status), each once, in strictly ascending order by priority, then due date, then id |
| TaskStore.Database.GetTaskById | task_scheduler/database.py:102-105 | it returns the row stored under `id`, and `None` exactly when no row has that id |
| TaskStore.Database.UpdateTaskStatus | task_scheduler/database.py:115-120 | only row `id`'s status becomes `s`; an absent id is a silent no-op; the counter is unchanged |
| TaskStore.Database.RescheduleTask | task_scheduler/database.py:134-146 | a malformed date gives the date error and an absent id gives the not-found error, and both leave the table unchanged; otherwise only that row's due date changes |
| TaskStore.Database.DeleteTask | task_scheduler/database.py:160-163 | it returns true exactly when the id was present, removes only that row, and `GetTaskById` then returns `None` |
| Heap.SiftUp | task_scheduler/scheduler.py:60 | heapq's `_siftdown`: the list keeps its length; `SiftUpPermutes` and `SiftUpHeap` give its meaning |
| Heap.Sink | task_scheduler/scheduler.py:74 | the leaf-ward pass of heapq's `_siftup`: the list keeps its length; `SinkPermutes` and `SinkHeap` give its meaning |
| Heap.PushLayout | task_scheduler/scheduler.py:60 | the list after `heappush`: one entry longer; `PushKeepsHeap` gives its meaning |
| Heap.PopLayout | task_scheduler/scheduler.py:74 | the list after `heappop`: one entry shorter; `PopKeepsHeap` gives its meaning |
| Heap.PushAll | task_scheduler/scheduler.py:57-60 | the `for task in tasks` loop of `build_queue`: the list grows by one entry per push; `PushAllHeap` gives its meaning |
| Heap.SwapPermutes | task_scheduler/scheduler.py:60 | a swap keeps the list's multiset |
| Heap.SiftUpPermutes | task_scheduler/scheduler.py:60 | `_siftdown` only rearranges the list |
| Heap.SinkPermutes | task_scheduler/scheduler.py:74 | the leaf-ward pass of `_siftup` only rearranges the list |
| Heap.SiftUpHeap | task_scheduler/scheduler.py:60 | sifting up from the one position where the heap order may fail restores the heap invariant |
| Heap.SmallerChild | task_scheduler/scheduler.py:74 | the child `_siftup` follows is a child of `pos` inside the list |
| Heap.SmallerChildLeast | task_scheduler/scheduler.py:74 | that child is the least of the children |
| Heap.SinkHeap | task_scheduler/scheduler.py:74 | carrying the hole down to a leaf leaves the heap order broken at most above that leaf |
| Heap.SinkLeaf | task_scheduler/scheduler.py:74 | the pass ends at a leaf of the list |
| Heap.RootLeast | task_scheduler/scheduler.py:74 | the root of a heap is at most every entry |
| Heap.PushKeepsHeap | task_scheduler/scheduler.py:60 | `heappush` keeps the heap invariant and adds exactly the pushed entry to the multiset |
| Heap.PopKeepsHeap | task_scheduler/scheduler.py:74 | `heappop` on a non-empty heap returns its least entry and leaves a heap holding exactly the other entries |
| Heap.PushAllHeap | task_scheduler/scheduler.py:57-60 | after the pushes the list is a heap holding exactly the old entries and the pushed ones |
| Heap.EntryKeyOrder | task_scheduler/scheduler.py:60 | Python's comparison of `(priority, due_ts, task_id)` tuples is the lexicographic order of their components |
| Heap.EntryKeyInjective | task_scheduler/scheduler.py:60 | the key determines the entry |
| Heap.PopAll | task_scheduler/scheduler.py:73-74 | `heappop` until empty yields as many entries as the list holds |
| Heap.PopAllSorted | task_scheduler/scheduler.py:73-74 | draining a heap yields its entries in non-decreasing `(priority, due, id)` order, as a permutation |
| Heap.PopAllIsSortBy | task_scheduler/scheduler.py:73-74 | the drain of a heap is its entries sorted by key |
| Heap.ListOrderIsNotHeapOrder | task_scheduler/scheduler.py:60 | a list can satisfy the heap invariant without being sorted, so its index order is not its pop order |
| Heap.PushAscending | task_scheduler/scheduler.py:57-60 | pushing entries that already ascend strictly appends each one in place, so the list is the input in its own order |
| Heap.PushOutOfOrderTies | task_scheduler/scheduler.py:57-60 | three tied rows pushed in descending id order give the list [id 1, id 3, id 2], which is not sorted |
| Heap.HeapList.constructor | task_scheduler/scheduler.py:56 | `queue = []` is an empty list |
| Heap.HeapList.SiftUpInPlace | task_scheduler/scheduler.py:60 | the in-place sift leaves the list `SiftUp` describes |
| Heap.HeapList.LesserChild | task_scheduler/scheduler.py:74 | returns the child `SmallerChild` names: the right one unless the left is strictly smaller |
| Heap.HeapList.SinkInPlace | task_scheduler/scheduler.py:74 | the in-place pass leaves the list `Sink` describes and returns the leaf `SinkLeaf` names |
| Heap.HeapList.Push | task_scheduler/scheduler.py:60 | `heappush(queue, x)` leaves the list `PushLayout(old, x)` |
| Heap.HeapList.Pop | task_scheduler/scheduler.py:74 | `heappop` returns the first entry and leaves `PopLayout(old)`; on an empty list it fails and changes nothing |
| Heap.HeapList.PopFront | task_scheduler/cli.py:182 | `queue.pop(0)` returns the first entry and leaves the list without it, in order; on an empty list it fails and changes nothing |
| Scheduling.FinalStatus | task_scheduler/scheduler.py:34-42 | a task ends "completed" iff its workload and its success notification both went through, and never ends "pending" |
| Scheduling.Raises | task_scheduler/scheduler.py:39-42 | an exception escapes only after the row was marked "failed", and never when the failure notice goes through |
| Scheduling.Trace | task_scheduler/scheduler.py:32-42 | every trace ends with the write of the final status followed by a notification attempt |
| Scheduling.TraceShape | task_scheduler/scheduler.py:32-42 | a trace starts with a status write and writes only its own row; every notification follows a status write and names its task; success is notified iff the workload went through; failure is notified iff something inside the `try` raised, with the right cause; the last write is the final status |
| Scheduling.ApplyWrites | task_scheduler/scheduler.py:36-40 | replaying status writes keeps the table's key set |
| Scheduling.ApplyWritesFrame | task_scheduler/scheduler.py:36-40 | writes for one id leave every other row untouched, change only that row's status, and leave it at the last status written |
| Scheduling.ExecuteEffect | task_scheduler/scheduler.py:32-42 | whatever happens, the only change `_execute_task` leaves in the table is its own row's final status |
| Scheduling.SetStatusTwice | task_scheduler/scheduler.py:36-40 | a second status write to a row overrides the first |
| Scheduling.EntryOfOrder | task_scheduler/scheduler.py:58-60 | the pushed tuple orders two rows exactly as the listing does (priority, then due date, then id), in both directions |
| Scheduling.EntriesOf | task_scheduler/scheduler.py:57-60 | one entry per listed row, position by position |
| Scheduling.Ids | task_scheduler/scheduler.py:74-76 | the submitted ids, position by position |
| Scheduling.EntriesAscending | task_scheduler/scheduler.py:55-60 | the entries of a `get_tasks` listing strictly ascend in tuple order |
| Scheduling.StoredRowsHaveLayout | task_scheduler/scheduler.py:58-59 | every listed row's due date has the layout `strptime` parses |
| Scheduling.PendingRowsQueued | task_scheduler/scheduler.py:55-60 | every pending row's entry is among the entries of a listing that holds it |
| Scheduling.QueuedRowsPending | task_scheduler/scheduler.py:55-60 | every entry of a listing of pending stored rows is the entry of the pending row stored under its id |
| Scheduling.QueueDrainSorts | task_scheduler/scheduler.py:57-74 | pushing any entries and then draining gives a heap and yields those entries sorted by key |
| Scheduling.AscendingDrain | task_scheduler/scheduler.py:57-74 | entries pushed in strictly ascending order are drained in that same order |
| Scheduling.AscendingSorted | task_scheduler/scheduler.py:73-74 | sorting entries that already ascend changes nothing |
| Scheduling.PopStep | task_scheduler/scheduler.py:73-76 | submitting the id `heappop` returns and then draining the rest submits the whole drain |
| Scheduling.Scheduler.constructor | task_scheduler/scheduler.py:26-29 | the scheduler holds the given store and worker bound and has submitted and logged nothing |
| Scheduling.Scheduler.PendingEntries | task_scheduler/scheduler.py:55-60 | one entry per row of `get_tasks(status="pending")` |
| Scheduling.Scheduler.PendingEntriesExact | task_scheduler/scheduler.py:55-61 | there is an entry for every pending row, every entry is the entry of a pending row stored under its id, there is none for a completed or failed row, and the entries strictly ascend |
| Scheduling.Scheduler.PendingDrain | task_scheduler/scheduler.py:55-74 | the queue `build_queue` makes is a heap, and draining it yields the pending entries in listing order |
| Scheduling.Scheduler.QueueIsListing | task_scheduler/scheduler.py:55-61 | the list `build_queue` returns is the listing itself, its ids are distinct, and each is stored |
| Scheduling.Scheduler.BuildQueue | task_scheduler/scheduler.py:53-61 | returns a fresh list equal to pushing the pending entries one by one; it is a heap, is a permutation of those entries, and drains in listing order |
| Scheduling.Scheduler.Run | task_scheduler/scheduler.py:63-76 | submits every pending id exactly once, in `(priority, due, id)` order, and nothing when none is pending. The model stops at submission: the pool's executions are not part of `Run` (see "Left out"), so its contract speaks of no status write and no log entry |
| Scheduling.Scheduler.SubmitAll | task_scheduler/scheduler.py:73-76 | the `while queue` loop submits exactly the ids of the heap's drain, in pop order, and leaves the list empty |
| Scheduling.Scheduler.ExecuteTask | task_scheduler/scheduler.py:32-42 | the store ends with only that row's final status changed; the log gains exactly that task's trace; the result says whether an exception escapes; nothing is submitted |
| Scheduling.AsWrittenEveryTaskFails | task_scheduler/scheduler.py:38-44 | with `send_email` declared without `self`, no notification can succeed (`AsWrittenOutcome`); then every executed task ends "failed" and `_execute_task` raises |
| Scheduling.IntendedCompletes | task_scheduler/scheduler.py:34-38 | with a working notifier and a successful workload, that task ends "completed", nothing escapes, and the trace is one write followed by one success notice |
| Cli.KeepStatus | task_scheduler/cli.py:58-59 | the comprehension keeps exactly the rows whose status is the choice, and never more rows than it was given |
| Cli.KeepStatusConcat | task_scheduler/cli.py:59 | the comprehension keeps the relative order of the rows it keeps |
| Cli.KeepStatusIsSelect | task_scheduler/cli.py:59 | for a non-empty choice the comprehension is the store's own `WHERE status = ?` selection |
| Cli.ListTasks | task_scheduler/cli.py:47-64 | the table shows a permutation of the filtered rows; for a sort choice other than "priority" or "due_date" it shows them in store order |
| Cli.ListTasksMembers | task_scheduler/cli.py:58-64 | with "all" the table holds every row; otherwise exactly the rows of the chosen status |
| Cli.ListTasksSorted | task_scheduler/cli.py:61-64 | "priority" gives non-decreasing priorities and "due_date" non-decreasing due dates; both keep the filtered order among equal keys |
| Cli.ListTasksFromStore | task_scheduler/cli.py:47-59 | read against the store, the table lists exactly the stored rows of the chosen status |
| Cli.DrainFrom | task_scheduler/cli.py:181-185 | the drain leaves the table's key set unchanged |
| Cli.DrainCounts | task_scheduler/cli.py:181-185 | entries are taken from the front of the list, each once: the executed ids are a prefix of the list's ids, all of them when nothing raised, and the bar advances once per task that returned |
| Cli.DrainStatuses | task_scheduler/cli.py:181-184 | with distinct ids, every executed task ends in its own final status and every other row is untouched |
| Cli.DrainCompletes | task_scheduler/cli.py:181-185 | when every entry's row is stored and no task raises, the drain runs to the end of the list |
| Cli.AsWrittenDrainStops | task_scheduler/cli.py:181-185 | with `send_email` as written, the loop ends inside the first task: that task is marked failed, and the bar never advances |
| Cli.DrainStep | task_scheduler/cli.py:181-185 | a task that returns contributes its trace, then the drain goes on with the rest of the list |
| Cli.DrainQueue | task_scheduler/cli.py:181-185 | the loop leaves the table, the log, the bar count and the escaped exception that `DrainFrom` describes for the list it was given |
| Cli.TakeFront | task_scheduler/cli.py:182-185 | one turn either raises, which ends the drain, or leaves the drain of the remaining list to finish the job |
| Cli.RunScheduler | task_scheduler/cli.py:174-185 | `run_scheduler` behaves as `DrainFrom` on the list `build_queue` returned; an empty queue executes nothing |

## Left out

- SQLite itself: connections, SQL text, `commit`, and `sqlite3.Error` raised by a failing statement (task_scheduler/database.py:20-44). The table is an in-memory map.
- The malformed second `CREATE TABLE task` in the constructor (task_scheduler/database.py:21-30). It lacks a comma before `category`, so as written `Database()` fails. The model is the `tasks` table of `_create_tables`.
- The `category` column that `get_tasks` selects at tuple index 4 (task_scheduler/database.py:90). `tasks` has no such column, so as written every `get_tasks` call raises `sqlite3.OperationalError`. Both rows under "Findings" assume this and the constructor's DDL are fixed. `list_tasks` reads index 4 as the status (task_scheduler/cli.py:59). The model uses named fields and reads the status.
- TaskStore.Database.GetTasks: SQL leaves the order of rows with equal `(priority, due_date)` unspecified. The model breaks those ties by id. This is one of the three assumptions under which the queue equals the listing (`Scheduling.Scheduler.QueueIsListing`; see the list at the top). Under another tie order the list need not be sorted (`Heap.PushOutOfOrderTies`).
- Tasks.CheckNewTask: the date check is the strict, zero-padded form of `strptime(due, "%Y-%m-%d %H:%M")`, with calendar validity and leap years. `strptime` also accepts single-digit fields, a space-padded day, non-ASCII Unicode decimal digits, and any run of whitespace (Unicode whitespace included) between date and time, so the model accepts fewer dates. TaskStore.Database.RescheduleTask uses the same check. On such dates text order and date order can differ (`DueDates.UnpaddedDateMisorders`).
- `strptime(...).timestamp()` (task_scheduler/scheduler.py:59) depends on the local timezone. It is replaced by `DueStamp`, the number YYYYMMDDhhmm, which orders stored dates as their text does (`DueDates.DueStampOrder`). That is the order of wall-clock times, not of `timestamp()`: across a daylight-saving gap a naive time inside the gap gets a later time's timestamp.
- Heap.HeapList.Push, Heap.HeapList.Pop: the pure-Python `heapq` moves a hole and writes the carried entry once, and CPython's C `_heapq` swaps as the model does. Both leave the same list, and the model does not distinguish them.
- `ThreadPoolExecutor` and `max_workers` (task_scheduler/scheduler.py:72-76): concurrency. `run` is modelled as the order of submissions; the submitted tasks do not run inside `Scheduling.Scheduler.Run`.
- `time.sleep(random.uniform(1, 5))` (task_scheduler/scheduler.py:35) and SMTP in `send_email` (task_scheduler/scheduler.py:44-51) are I/O and time. Their success or failure is the `Outcome` parameter.
- The name that `run` passes to `_execute_task` (task_scheduler/scheduler.py:75). It is read from the first row of `get_tasks()` rather than from the submitted row, and it does not affect the submission order that `Run` records.
- Logging calls and the `print` in `run` (task_scheduler/scheduler.py:33-41, 67-71).
- Scheduling.Scheduler.Run: the early return for an empty queue (task_scheduler/scheduler.py:66-69) is not a separate branch. The loop submits nothing on an empty heap, which has the same effect.
- Scheduling.Scheduler.Run: the pool's executions of the submitted tasks are not modelled. Leaving the `with ThreadPoolExecutor` block (task_scheduler/scheduler.py:72) waits for them, so when `run` returns every submitted row has been written "completed" or "failed". The model's `Run` leaves the table unchanged. `Scheduling.Scheduler.ExecuteTask` models one such execution.
- Scheduling.Scheduler.constructor takes the store itself rather than the path it is opened at.
- `update_task_status` with a status text outside the three the CHECK admits (a SQLite error). The model's status is the closed datatype `Status`.
- `list.sort` sorts in place. `Cli.ListTasks` computes the sorted list as a value with the stable `Ordering.SortBy`.
- The `rich` rendering, prompts and progress bar drawing, `argparse`, `load_dotenv` and environment variables (task_scheduler/cli.py:1-39, 66-165, 188-266). The progress bar is the count `progress`.
- `cli.add_task` passes a category to the three-argument `add_task` (task_scheduler/cli.py:102), and `main` uses `os` without importing it (task_scheduler/cli.py:191). Both are outside the modelled functions.

## Findings

| source | as written | input that shows it | evidently intended | confidence | as-written member | corrected member |
|---|---|---|---|---|---|---|
| task_scheduler/scheduler.py:44 | `send_email` is declared without `self`, so `self.send_email(subject, body)` raises `TypeError` on every call. The success notice therefore always moves a task to "failed", and the failure notice then raises out of `_execute_task`. | any pending task whose workload succeeds | a working notifier: a successful task ends "completed", and `_execute_task` returns normally | not executed | Scheduling.AsWrittenEveryTaskFails | Scheduling.IntendedCompletes |
| task_scheduler/cli.py:181-185 | because of the same `send_email`, the exception escapes `_execute_task` inside the `while queue` loop of `run_scheduler`, so the command stops after the first task, with the progress bar at zero | a queue with two or more entries | every queued task is executed and the bar reaches the queue's length | not executed | Cli.AsWrittenDrainStops | Cli.DrainCompletes |
