/**
  The two pieces of task_scheduler/cli.py that compute rather than render:
  the filter and sort of `list_tasks`, and the sequential drain loop of
  `run_scheduler`, which takes index 0 of the list `build_queue` returned
  and runs `_execute_task` on it directly, on the calling thread.
*/
module Cli {
  import opened Ordering
  import opened DueDates
  import opened Tasks
  import opened TaskStore
  import opened Heap
  import opened Scheduling

  /** `[task for task in tasks if task[4] == filter_choice]`, reading index 4 as the status. */
  function KeepStatus(ts: seq<Task>, choice: string): (r: seq<Task>)
    ensures forall t :: t in r <==> t in ts && StatusName(t.status) == choice
    ensures |r| <= |ts|
  {
    if ts == [] then []
    else (if StatusName(ts[0].status) == choice then [ts[0]] else []) + KeepStatus(ts[1..], choice)
  }

  /** The comprehension keeps relative order: it distributes over concatenation. */
  lemma {:induction false} KeepStatusConcat(a: seq<Task>, b: seq<Task>, choice: string)
    ensures KeepStatus(a + b, choice) == KeepStatus(a, choice) + KeepStatus(b, choice)
    decreases |a|
  {
    if a != [] {
      assert (a + b)[0] == a[0] && (a + b)[1..] == a[1..] + b;
      KeepStatusConcat(a[1..], b, choice);
      var head := if StatusName(a[0].status) == choice then [a[0]] else [];
      assert KeepStatus(a + b, choice) == head + KeepStatus(a[1..] + b, choice);
      assert KeepStatus(a, choice) == head + KeepStatus(a[1..], choice);
    } else {
      assert a + b == b;
    }
  }

  /** For a non-empty choice the comprehension is the store's own `WHERE status = ?`. */
  lemma {:induction false} KeepStatusIsSelect(ts: seq<Task>, choice: string)
    requires choice != ""
    ensures KeepStatus(ts, choice) == Select(ts, Some(choice))
    decreases |ts|
  {
    if ts != [] {
      KeepStatusIsSelect(ts[1..], choice);
    }
  }

  /** `key=lambda x: x[2]` */
  function PriorityKey(t: Task): seq<int> { [t.priority] }

  /** `key=lambda x: x[3]`: the due date text, compared character by character. */
  function DueKey(t: Task): seq<int> { Codes(t.due) }

  /** The rows `list_tasks` keeps before it sorts. */
  function Filtered(ts: seq<Task>, filterChoice: string): seq<Task>
  {
    if filterChoice == "all" then ts else KeepStatus(ts, filterChoice)
  }

  /**
    `list_tasks` on the rows `db.get_tasks()` returned, with the two answers
    given at the prompts: the rows it puts in the table, in table order.
  */
  function ListTasks(ts: seq<Task>, filterChoice: string, sortChoice: string): (shown: seq<Task>)
    ensures multiset(shown) == multiset(Filtered(ts, filterChoice))
    ensures sortChoice != "priority" && sortChoice != "due_date" ==> shown == Filtered(ts, filterChoice)
  {
    if ts == [] then []  // "No tasks available."
    else
      var kept := Filtered(ts, filterChoice);
      if sortChoice == "priority" then SortBy(kept, PriorityKey)
      else if sortChoice == "due_date" then SortBy(kept, DueKey)
      else kept
  }

  /** The table holds exactly the rows of the chosen status ("all": every row). */
  lemma ListTasksMembers(ts: seq<Task>, filterChoice: string, sortChoice: string)
    ensures forall t :: t in ListTasks(ts, filterChoice, sortChoice) <==>
      t in ts && (filterChoice == "all" || StatusName(t.status) == filterChoice)
  {
    var shown := ListTasks(ts, filterChoice, sortChoice);
    forall t ensures t in shown <==> t in Filtered(ts, filterChoice) {
      assert t in shown <==> t in multiset(shown);
    }
  }

  /**
    Sorting by priority or by due date puts the keys in non-decreasing order
    and, being stable, keeps the relative order of rows with equal keys.
  */
  lemma ListTasksSorted(ts: seq<Task>, filterChoice: string, sortChoice: string)
    ensures sortChoice == "priority" ==>
      && Sorted(ListTasks(ts, filterChoice, sortChoice), PriorityKey)
      && forall k :: KeyClass(ListTasks(ts, filterChoice, sortChoice), PriorityKey, k)
                  == KeyClass(Filtered(ts, filterChoice), PriorityKey, k)
    ensures sortChoice == "due_date" ==>
      && Sorted(ListTasks(ts, filterChoice, sortChoice), DueKey)
      && forall k :: KeyClass(ListTasks(ts, filterChoice, sortChoice), DueKey, k)
                  == KeyClass(Filtered(ts, filterChoice), DueKey, k)
  {
    var kept := Filtered(ts, filterChoice);
    if ts != [] && sortChoice == "priority" {
      SortBySorted(kept, PriorityKey);
      forall k ensures KeyClass(SortBy(kept, PriorityKey), PriorityKey, k) == KeyClass(kept, PriorityKey, k) {
        SortByStable(kept, PriorityKey, k);
      }
    } else if ts != [] && sortChoice == "due_date" {
      SortBySorted(kept, DueKey);
      forall k ensures KeyClass(SortBy(kept, DueKey), DueKey, k) == KeyClass(kept, DueKey, k) {
        SortByStable(kept, DueKey, k);
      }
    }
  }

  /** Read against the store: the table lists the stored rows of the chosen status. */
  lemma ListTasksFromStore(db: Database, filterChoice: string, sortChoice: string)
    requires db.Valid()
    ensures forall t :: t in ListTasks(db.GetTasks(None), filterChoice, sortChoice) <==>
      t.id in db.rows && db.rows[t.id] == t && (filterChoice == "all" || StatusName(t.status) == filterChoice)
  {
    ListTasksMembers(db.GetTasks(None), filterChoice, sortChoice);
  }

  /** What the drain of `run_scheduler` leaves behind. */
  datatype Drained = Drained(
    rows: map<int, Task>,   // the table afterwards
    events: seq<Event>,     // every status write and notification attempt, in order
    executed: seq<int>,     // the ids `_execute_task` was called on, in order
    progress: nat,          // how far the progress bar advanced
    raised: bool)           // an exception escaped and ended the loop

  /**
    The drain loop over the list `es`, from index 0 on: look the row up by
    id (`None["name"]` raises), run `_execute_task` on it, and advance the
    bar unless it raised.
  */
  function DrainFrom(rows: map<int, Task>, es: seq<Entry>, outcome: int -> Outcome): (d: Drained)
    ensures d.rows.Keys == rows.Keys
    decreases |es|
  {
    if es == [] then Drained(rows, [], [], 0, false)
    else
      var id := es[0].id;
      if id !in rows then Drained(rows, [], [], 0, true)
      else
        var o := outcome(id);
        var after := SetStatus(rows, id, FinalStatus(o));
        var trace := Trace(id, rows[id].name, o);
        if Raises(o) then Drained(after, trace, [id], 0, true)
        else
          var rest := DrainFrom(after, es[1..], outcome);
          Drained(rest.rows, trace + rest.events, [id] + rest.executed, rest.progress + 1, rest.raised)
  }

  /**
    Each entry is taken once, from the front of the list: the executed ids
    are a prefix of the list's ids, all of them when nothing raised, and the
    bar advanced once per task that returned.
  */
  lemma {:induction false} DrainCounts(rows: map<int, Task>, es: seq<Entry>, outcome: int -> Outcome)
    ensures var d := DrainFrom(rows, es, outcome);
      && d.progress <= |d.executed| <= |es|
      && d.executed == Ids(es)[..|d.executed|]
      && (!d.raised ==> d.executed == Ids(es) && d.progress == |es|)
      && (d.raised ==> |d.executed| <= d.progress + 1)
    decreases |es|
  {
    if es != [] && es[0].id in rows && !Raises(outcome(es[0].id)) {
      var after := SetStatus(rows, es[0].id, FinalStatus(outcome(es[0].id)));
      DrainCounts(after, es[1..], outcome);
      assert Ids(es) == [es[0].id] + Ids(es[1..]);
    }
  }

  /**
    With distinct ids, every executed task ends in its own final status and
    every other row is untouched.
  */
  lemma {:induction false} DrainStatuses(rows: map<int, Task>, es: seq<Entry>, outcome: int -> Outcome)
    requires forall i, j :: 0 <= i < j < |es| ==> es[i].id != es[j].id
    ensures var d := DrainFrom(rows, es, outcome);
      && (forall k :: k in d.executed ==> k in rows && d.rows[k] == rows[k].(status := FinalStatus(outcome(k))))
      && (forall k :: k in rows && k !in d.executed ==> d.rows[k] == rows[k])
    decreases |es|
  {
    if es != [] && es[0].id in rows && !Raises(outcome(es[0].id)) {
      var id := es[0].id;
      var after := SetStatus(rows, id, FinalStatus(outcome(id)));
      var rest := DrainFrom(after, es[1..], outcome);
      DrainStatuses(after, es[1..], outcome);
      DrainCounts(after, es[1..], outcome);
      assert id !in rest.executed by {
        forall i | 0 <= i < |rest.executed| ensures rest.executed[i] != id {
          assert rest.executed[i] == Ids(es[1..])[i] == es[i + 1].id;
        }
      }
    }
  }

  /** When every row is present and no task raises (every failure notice it needs goes through), the drain runs every task. */
  lemma {:induction false} DrainCompletes(rows: map<int, Task>, es: seq<Entry>, outcome: int -> Outcome)
    requires forall e :: e in es ==> e.id in rows
    requires forall id :: !Raises(outcome(id))
    ensures !DrainFrom(rows, es, outcome).raised
    decreases |es|
  {
    if es != [] {
      var after := SetStatus(rows, es[0].id, FinalStatus(outcome(es[0].id)));
      assert forall e :: e in es[1..] ==> e in es;
      DrainCompletes(after, es[1..], outcome);
    }
  }

  /**
    With `send_email` as written every notification raises, so the loop ends
    inside the first task: it is marked failed and the bar never advances.
  */
  lemma AsWrittenDrainStops(rows: map<int, Task>, es: seq<Entry>, outcome: int -> Outcome)
    requires es != [] && es[0].id in rows
    requires forall id :: outcome(id) == AsWrittenOutcome(outcome(id).workloadOk)
    ensures var d := DrainFrom(rows, es, outcome);
      && d.raised && d.progress == 0 && d.executed == [es[0].id]
      && d.rows == SetStatus(rows, es[0].id, Failed)
  {
    assert outcome(es[0].id) == AsWrittenOutcome(outcome(es[0].id).workloadOk);
  }

  /** One task that returns normally: its trace, then the drain of the rest of the list. */
  lemma DrainStep(rows: map<int, Task>, es: seq<Entry>, outcome: int -> Outcome, log: seq<Event>)
    requires es != [] && es[0].id in rows && !Raises(outcome(es[0].id))
    ensures var d := DrainFrom(rows, es, outcome);
      var r := DrainFrom(SetStatus(rows, es[0].id, FinalStatus(outcome(es[0].id))), es[1..], outcome);
      && d.rows == r.rows && d.progress == r.progress + 1 && d.raised == r.raised
      && log + d.events == log + Trace(es[0].id, rows[es[0].id].name, outcome(es[0].id)) + r.events
  {
  }

  /**
    The `while queue` loop of `run_scheduler`: `queue.pop(0)`, look the row
    up, `_execute_task`, advance the bar.
  */
  method DrainQueue(s: Scheduler, queue: HeapList, outcome: int -> Outcome) returns (progress: nat, raised: bool)
    requires s.Valid() && queue.Valid()
    modifies s, s.db, queue, queue.a
    ensures s.Valid()
    ensures var d := DrainFrom(old(s.db.rows), old(queue.Elements()), outcome);
      && s.db.rows == d.rows && s.log == old(s.log) + d.events
      && progress == d.progress && raised == d.raised
    ensures s.dispatched == old(s.dispatched) && s.db.nextId == old(s.db.nextId)
  {
    ghost var all := DrainFrom(s.db.rows, queue.Elements(), outcome);
    progress, raised := 0, false;
    while queue.n > 0
      invariant s.Valid() && queue.Valid() && queue.a == old(queue.a)
      invariant s.dispatched == old(s.dispatched) && s.db.nextId == old(s.db.nextId)
      invariant var d := DrainFrom(s.db.rows, queue.Elements(), outcome);
        && d.rows == all.rows && old(s.log) + all.events == s.log + d.events
        && all.progress == progress + d.progress && all.raised == d.raised
      decreases queue.n
    {
      raised := TakeFront(s, queue, outcome);
      if raised {
        return;
      }
      progress := progress + 1;
    }
  }

  /**
    One turn of the loop: `queue.pop(0)`, the row lookup and `_execute_task`.
    Either an exception escapes, which ends the drain, or the drain goes on
    with the rest of the list.
  */
  method TakeFront(s: Scheduler, queue: HeapList, outcome: int -> Outcome) returns (raised: bool)
    requires s.Valid() && queue.Valid() && queue.n > 0
    modifies s, s.db, queue, queue.a
    ensures s.Valid() && queue.Valid() && queue.a == old(queue.a) && queue.n == old(queue.n) - 1
    ensures s.dispatched == old(s.dispatched) && s.db.nextId == old(s.db.nextId)
    ensures var d := DrainFrom(old(s.db.rows), old(queue.Elements()), outcome);
      raised ==> d.raised && d.progress == 0 && s.db.rows == d.rows && s.log == old(s.log) + d.events
    ensures var d := DrainFrom(old(s.db.rows), old(queue.Elements()), outcome);
      var r := DrainFrom(s.db.rows, queue.Elements(), outcome);
      !raised ==> && d.rows == r.rows && d.progress == r.progress + 1 && d.raised == r.raised
                  && old(s.log) + d.events == s.log + r.events
  {
    ghost var rest := queue.Elements();
    ghost var rows := s.db.rows;
    ghost var log := s.log;
    var e := queue.PopFront();
    var id := e.value.id;
    var row := s.db.GetTaskById(id);
    if row.None? {
      // `None["name"]` raises TypeError.
      return true;
    }
    raised := s.ExecuteTask(id, row.value.name, outcome(id));
    if !raised {
      DrainStep(rows, rest, outcome, log);
    }
  }

  /**
    `run_scheduler(scheduler)` when the world answers `outcome(id)` for the
    task with that id: builds the queue, then drains the list it returned
    from the front.
  */
  method RunScheduler(s: Scheduler, outcome: int -> Outcome) returns (progress: nat, raised: bool)
    requires s.Valid()
    modifies s, s.db
    ensures s.Valid()
    ensures var d := DrainFrom(old(s.db.rows), PushAll([], old(s.PendingEntries())), outcome);
      && s.db.rows == d.rows && s.log == old(s.log) + d.events
      && progress == d.progress && raised == d.raised
    ensures s.dispatched == old(s.dispatched) && s.db.nextId == old(s.db.nextId)
  {
    var queue := s.BuildQueue();
    if queue.n == 0 {
      // "No pending tasks."
      return 0, false;
    }
    progress, raised := DrainQueue(s, queue, outcome);
  }
}
