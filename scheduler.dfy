/**
  The scheduling engine of task_scheduler/scheduler.py: `build_queue` pushes
  one heap entry per pending task, `run` drains the heap with `heappop` and
  hands each id to the executor, and `_execute_task` turns a task's outcome
  into status writes and notifications.

  What happens outside the program (the sleeping workload, SMTP, SQLite
  failures) is an `Outcome` the caller supplies. Submission to the thread
  pool is an append to `dispatched`.
*/
module Scheduling {
  import opened Ordering
  import opened DueDates
  import opened Tasks
  import opened TaskStore
  import opened Heap

  /** What the world does while `_execute_task` runs. */
  datatype Outcome = Outcome(
    workloadOk: bool,     // the sleep and the "completed" write raise nothing
    successMailOk: bool,  // the success notification raises nothing
    failureMailOk: bool)  // the failure notification raises nothing

  /** Why a task is reported failed. */
  datatype Cause = WorkloadError | SuccessMailError

  datatype Notice = Success(name: string) | Failure(name: string, cause: Cause)

  /** One observable step of `_execute_task`: a status write or a notification attempt. */
  datatype Event = StatusWrite(id: int, status: Status) | Notify(notice: Notice)

  /** The status a task is left in. */
  function FinalStatus(o: Outcome): (s: Status)
    ensures s == Completed <==> o.workloadOk && o.successMailOk
    ensures s != Pending
  {
    if o.workloadOk && o.successMailOk then Completed else Failed
  }

  /** `_execute_task` lets an exception escape: the `except` branch's own notification raised. */
  function Raises(o: Outcome): (r: bool)
    ensures r ==> FinalStatus(o) == Failed
    ensures o.failureMailOk ==> !r
  {
    !(o.workloadOk && o.successMailOk) && !o.failureMailOk
  }

  /** The last status written in `events`, if any. */
  function LastStatus(events: seq<Event>): Option<Status>
  {
    if events == [] then None
    else if events[|events| - 1].StatusWrite? then Some(events[|events| - 1].status)
    else LastStatus(events[..|events| - 1])
  }

  /**
    The events of `_execute_task(id, name)`, in order: the `try` body writes
    "completed" and notifies; if anything in it raises, the `except` branch
    writes "failed" and notifies again.
  */
  function Trace(id: int, name: string, o: Outcome): (r: seq<Event>)
    ensures |r| >= 2 && r[|r| - 2] == StatusWrite(id, FinalStatus(o)) && r[|r| - 1].Notify?
  {
    var completed := [StatusWrite(id, Completed), Notify(Success(name))];
    if !o.workloadOk then [StatusWrite(id, Failed), Notify(Failure(name, WorkloadError))]
    else if !o.successMailOk then completed + [StatusWrite(id, Failed), Notify(Failure(name, SuccessMailError))]
    else completed
  }

  /**
    The shape of every trace: it starts with a status write, writes only
    its own row, puts a status write before each notification, names its
    own task, notifies success exactly when the workload went through and
    failure exactly when something raised, and ends with the final status.
  */
  lemma TraceShape(id: int, name: string, o: Outcome)
    ensures var r := Trace(id, name, o);
      && r != [] && r[0].StatusWrite?
      && (forall i :: 0 <= i < |r| && r[i].StatusWrite? ==> r[i].id == id)
      && (forall i :: 0 <= i < |r| && r[i].Notify? ==> 0 < i && r[i - 1].StatusWrite?)
      && (forall i :: 0 <= i < |r| && r[i].Notify? ==> r[i].notice.name == name)
      && (Notify(Success(name)) in r <==> o.workloadOk)
      && (Notify(Failure(name, WorkloadError)) in r <==> !o.workloadOk)
      && (Notify(Failure(name, SuccessMailError)) in r <==> o.workloadOk && !o.successMailOk)
      && LastStatus(r) == Some(FinalStatus(o))
  {
    var r := Trace(id, name, o);
    var completed := [StatusWrite(id, Completed), Notify(Success(name))];
    if !o.workloadOk {
      assert r[..1] == [StatusWrite(id, Failed)];
    } else if !o.successMailOk {
      assert r[..3] == completed + [StatusWrite(id, Failed)];
    } else {
      assert r[..1] == [StatusWrite(id, Completed)];
    }
  }

  /** The table after the status writes among `events`, in order. */
  function ApplyWrites(rows: map<int, Task>, events: seq<Event>): (r: map<int, Task>)
    ensures r.Keys == rows.Keys
    decreases |events|
  {
    if events == [] then rows
    else
      var next := if events[0].StatusWrite? then SetStatus(rows, events[0].id, events[0].status) else rows;
      ApplyWrites(next, events[1..])
  }

  /** Status writes for one id only touch that id's row, and only its status. */
  lemma {:induction false} ApplyWritesFrame(rows: map<int, Task>, events: seq<Event>, id: int)
    requires forall i :: 0 <= i < |events| && events[i].StatusWrite? ==> events[i].id == id
    ensures forall k :: k in rows && k != id ==> ApplyWrites(rows, events)[k] == rows[k]
    ensures id in rows ==> ApplyWrites(rows, events)[id] == rows[id].(status := ApplyWrites(rows, events)[id].status)
    ensures id in rows && LastStatus(events).Some? ==> ApplyWrites(rows, events)[id].status == LastStatus(events).value
    ensures LastStatus(events).None? ==> ApplyWrites(rows, events) == rows
    decreases |events|
  {
    if events != [] {
      var last := events[|events| - 1];
      var init := events[..|events| - 1];
      ApplyWritesSnoc(rows, init, last);
      assert init + [last] == events;
      ApplyWritesFrame(rows, init, id);
    }
  }

  lemma {:induction false} ApplyWritesSnoc(rows: map<int, Task>, events: seq<Event>, e: Event)
    ensures ApplyWrites(rows, events + [e])
         == (if e.StatusWrite? then SetStatus(ApplyWrites(rows, events), e.id, e.status) else ApplyWrites(rows, events))
    decreases |events|
  {
    if events == [] {
      assert (events + [e])[1..] == [];
    } else {
      var next := if events[0].StatusWrite? then SetStatus(rows, events[0].id, events[0].status) else rows;
      assert (events + [e])[1..] == events[1..] + [e];
      ApplyWritesSnoc(next, events[1..], e);
    }
  }

  /** Whatever happens, `_execute_task` leaves exactly one change: its own row's final status. */
  lemma ExecuteEffect(rows: map<int, Task>, id: int, name: string, o: Outcome)
    ensures ApplyWrites(rows, Trace(id, name, o)) == SetStatus(rows, id, FinalStatus(o))
  {
    var r := ApplyWrites(rows, Trace(id, name, o));
    var u := SetStatus(rows, id, FinalStatus(o));
    TraceShape(id, name, o);
    ApplyWritesFrame(rows, Trace(id, name, o), id);
    forall k | k in r ensures r[k] == u[k] {
    }
  }

  /** A second status write to the same row overrides the first. */
  lemma SetStatusTwice(rows: map<int, Task>, id: int, s: Status, t: Status)
    ensures SetStatus(SetStatus(rows, id, s), id, t) == SetStatus(rows, id, t)
  {
  }

  /** The entry `build_queue` pushes for a row. */
  function EntryOf(t: Task): (e: Entry)
    requires HasLayout(t.due)
    ensures e.priority == t.priority && e.id == t.id
  {
    Entry(t.priority, DueStamp(t.due), t.id)
  }

  /** The pushed tuples order two rows exactly as the listing does: priority, then due date, then id. */
  lemma EntryOfOrder(t: Task, u: Task)
    requires HasLayout(t.due) && HasLayout(u.due)
    ensures Lt(EntryOf(t), EntryOf(u)) <==> ListedBefore(t, u)
  {
    DueStampOrder(t.due, u.due);
    DueStampOrder(u.due, t.due);
  }

  function EntriesOf(ts: seq<Task>): (es: seq<Entry>)
    requires forall t :: t in ts ==> HasLayout(t.due)
    ensures |es| == |ts|
    ensures forall i :: 0 <= i < |ts| ==> es[i] == EntryOf(ts[i])
  {
    if ts == [] then [] else [EntryOf(ts[0])] + EntriesOf(ts[1..])
  }

  /** The ids of a sequence of entries, in order. */
  function Ids(es: seq<Entry>): (ids: seq<int>)
    ensures |ids| == |es|
    ensures forall i :: 0 <= i < |es| ==> ids[i] == es[i].id
  {
    if es == [] then [] else [es[0].id] + Ids(es[1..])
  }

  /**
    Entries of rows listed by `get_tasks` (priority, then due date, then id)
    are in strictly ascending key order.
  */
  lemma EntriesAscending(ts: seq<Task>)
    requires forall t :: t in ts ==> HasLayout(t.due)
    requires forall i, j :: 0 <= i < j < |ts| ==> ListedBefore(ts[i], ts[j])
    ensures forall i, j :: 0 <= i < j < |ts| ==> Lt(EntriesOf(ts)[i], EntriesOf(ts)[j])
  {
    forall i, j | 0 <= i < j < |ts| ensures Lt(EntriesOf(ts)[i], EntriesOf(ts)[j]) {
      assert ts[i] in ts && ts[j] in ts;
      DueStampOrder(ts[i].due, ts[j].due);
    }
  }

  /** A row that has passed add_task's checks has a due date in the stored layout. */
  lemma StoredRowsHaveLayout(db: Database, status: Option<string>)
    requires db.Valid()
    ensures forall t :: t in db.GetTasks(status) ==> HasLayout(t.due)
  {
    forall t | t in db.GetTasks(status) ensures HasLayout(t.due) {
      assert WellFormed(db.rows[t.id]);
      WellFormedDue(t);
    }
  }

  /** Every pending row of the table has its entry among the entries of a listing that holds it. */
  lemma PendingRowsQueued(rows: map<int, Task>, ts: seq<Task>)
    requires forall t :: t in ts ==> HasLayout(t.due)
    requires forall k :: k in rows && rows[k].status == Pending ==> rows[k] in ts
    ensures forall k :: k in rows && rows[k].status == Pending ==>
      HasLayout(rows[k].due) && EntryOf(rows[k]) in EntriesOf(ts)
  {
    var es := EntriesOf(ts);
    forall k | k in rows && rows[k].status == Pending
      ensures HasLayout(rows[k].due) && EntryOf(rows[k]) in es
    {
      var i :| 0 <= i < |ts| && ts[i] == rows[k];
      assert es[i] == EntryOf(rows[k]);
    }
  }

  /** Each entry of a listing of pending stored rows is the entry of the pending row under its id. */
  lemma QueuedRowsPending(rows: map<int, Task>, ts: seq<Task>)
    requires forall t :: t in ts ==>
      t.id in rows && rows[t.id] == t && StatusName(t.status) == "pending" && HasLayout(t.due)
    ensures forall e :: e in EntriesOf(ts) ==>
      e.id in rows && rows[e.id].status == Pending && HasLayout(rows[e.id].due) && e == EntryOf(rows[e.id])
  {
    var es := EntriesOf(ts);
    forall e | e in es
      ensures e.id in rows && rows[e.id].status == Pending && HasLayout(rows[e.id].due) && e == EntryOf(rows[e.id])
    {
      var i :| 0 <= i < |es| && es[i] == e;
      assert ts[i] in ts;
      StatusNameInjective(ts[i].status, Pending);
    }
  }

  /** `build_queue` followed by `run` pops every entry, in key order: heap sort. */
  lemma {:induction false} QueueDrainSorts(es: seq<Entry>)
    ensures IsHeap(PushAll([], es))
    ensures PopAll(PushAll([], es)) == SortBy(es, EntryKey)
  {
    var q0 := PushAll([], es);
    PushAllHeap([], es);
    PopAllIsSortBy(q0);
    SortBySorted(q0, EntryKey);
    SortBySorted(es, EntryKey);
    EntryKeyInjective();
    SortedUnique(SortBy(q0, EntryKey), SortBy(es, EntryKey), EntryKey);
  }

  /** Entries pushed in strictly ascending order come out of the heap in that same order. */
  lemma AscendingDrain(es: seq<Entry>)
    requires forall i, j :: 0 <= i < j < |es| ==> Lt(es[i], es[j])
    ensures IsHeap(PushAll([], es))
    ensures PopAll(PushAll([], es)) == es
  {
    QueueDrainSorts(es);
    AscendingSorted(es);
  }

  /** Sorting entries that already ascend changes nothing. */
  lemma AscendingSorted(es: seq<Entry>)
    requires forall i, j :: 0 <= i < j < |es| ==> Lt(es[i], es[j])
    ensures SortBy(es, EntryKey) == es
  {
    forall i, j | 0 <= i < j < |es| ensures LexLe(EntryKey(es[i]), EntryKey(es[j])) {
      EntryKeyOrder(es[i], es[j]);
    }
    SortBySorted(es, EntryKey);
    EntryKeyInjective();
    SortedUnique(SortBy(es, EntryKey), es, EntryKey);
  }

  /** Submitting the id `heappop` returns, then draining the rest, submits the whole drain. */
  lemma PopStep(done: seq<int>, s: seq<Entry>)
    requires IsHeap(s) && |s| > 0
    ensures IsHeap(PopLayout(s))
    ensures done + [s[0].id] + Ids(PopAll(PopLayout(s))) == done + Ids(PopAll(s))
  {
    PopKeepsHeap(s);
    assert Ids(PopAll(s)) == [s[0].id] + Ids(PopAll(PopLayout(s)));
  }

  class Scheduler {
    const db: Database
    const maxWorkers: int
    /** The ids handed to the thread pool, in submission order. */
    var dispatched: seq<int>
    /** Every status write and notification attempt of `_execute_task`, in order. */
    var log: seq<Event>

    ghost predicate Valid()
      reads db
    {
      db.Valid()
    }

    /** `Scheduler(db_path, max_workers)`, with the store opened at `db_path` passed in. */
    constructor (store: Database, maxWorkers: int)
      requires store.Valid()
      ensures Valid() && db == store && this.maxWorkers == maxWorkers
      ensures dispatched == [] && log == []
    {
      db := store;
      this.maxWorkers := maxWorkers;
      dispatched := [];
      log := [];
    }

    /** The entries `build_queue` pushes: one per pending row, in `get_tasks("pending")` order. */
    function PendingEntries(): (es: seq<Entry>)
      reads db
      requires Valid()
      ensures |es| == |db.GetTasks(Some("pending"))|
    {
      StoredRowsHaveLayout(db, Some("pending"));
      EntriesOf(db.GetTasks(Some("pending")))
    }

    /**
      One entry per pending row, the entry of the row stored under its id,
      and no entry for a completed or failed row; the entries ascend.
    */
    lemma PendingEntriesExact()
      requires Valid()
      ensures forall k :: k in db.rows && db.rows[k].status == Pending ==>
        HasLayout(db.rows[k].due) && EntryOf(db.rows[k]) in PendingEntries()
      ensures forall e :: e in PendingEntries() ==>
        e.id in db.rows && db.rows[e.id].status == Pending && HasLayout(db.rows[e.id].due)
        && e == EntryOf(db.rows[e.id])
      ensures forall i, j :: 0 <= i < j < |PendingEntries()| ==> Lt(PendingEntries()[i], PendingEntries()[j])
    {
      var ts := db.GetTasks(Some("pending"));
      StoredRowsHaveLayout(db, Some("pending"));
      PendingRowsQueued(db.rows, ts);
      QueuedRowsPending(db.rows, ts);
      EntriesAscending(ts);
    }

    /** Draining the queue `build_queue` makes yields the pending entries in listing order. */
    lemma PendingDrain()
      requires Valid()
      ensures IsHeap(PushAll([], PendingEntries()))
      ensures PopAll(PushAll([], PendingEntries())) == PendingEntries()
    {
      PendingEntriesExact();
      AscendingDrain(PendingEntries());
    }

    /**
      The list `build_queue` returns is the listing itself: the pending
      entries arrive in ascending order, so no `heappush` moves one.
    */
    lemma QueueIsListing()
      requires Valid()
      ensures PushAll([], PendingEntries()) == PendingEntries()
      ensures forall i, j :: 0 <= i < j < |PendingEntries()| ==> PendingEntries()[i].id != PendingEntries()[j].id
      ensures forall e :: e in PendingEntries() ==> e.id in db.rows
    {
      PendingEntriesExact();
      var es := PendingEntries();
      PushAscending([], es);
      forall i, j | 0 <= i < j < |es| ensures es[i].id != es[j].id {
        assert es[i] in es && es[j] in es && Lt(es[i], es[j]);
        assert es[i] == EntryOf(db.rows[es[i].id]) && es[j] == EntryOf(db.rows[es[j].id]);
      }
    }

    /** `build_queue`: push every pending row's entry onto an empty list. */
    method BuildQueue() returns (q: HeapList)
      requires Valid()
      ensures fresh(q) && fresh(q.a) && q.Valid()
      ensures q.Elements() == PushAll([], PendingEntries())
      ensures IsHeap(q.Elements()) && multiset(q.Elements()) == multiset(PendingEntries())
      ensures PopAll(q.Elements()) == PendingEntries()
    {
      var es := PendingEntries();
      q := new HeapList();
      var i := 0;
      while i < |es|
        invariant 0 <= i <= |es|
        invariant fresh(q) && fresh(q.a) && q.Valid()
        invariant PushAll(q.Elements(), es[i..]) == PushAll([], es)
      {
        assert es[i..][0] == es[i] && es[i..][1..] == es[i + 1..];
        q.Push(es[i]);
        i := i + 1;
      }
      PushAllHeap([], es);
      PendingDrain();
    }

    /**
      `run`: drain the queue with `heappop`, submitting each id. The ids go
      out in `get_tasks("pending")` order: priority, then due date, then id.
      The tasks themselves run on the pool's threads and change nothing here.
    */
    method Run()
      requires Valid()
      modifies this
      ensures dispatched == old(dispatched) + Ids(PendingEntries())
      ensures log == old(log)
    {
      var q := BuildQueue();
      // With no pending task the loop below submits nothing ("No tasks to run.").
      SubmitAll(q);
    }

    /** The loop of `run`: `heappop` until the list is empty, submitting each id. */
    method SubmitAll(q: HeapList)
      requires q.Valid() && IsHeap(q.Elements())
      modifies this, q, q.a
      ensures q.Valid() && q.Elements() == []
      ensures dispatched == old(dispatched) + Ids(PopAll(old(q.Elements())))
      ensures log == old(log)
    {
      ghost var q0 := q.Elements();
      while q.n > 0
        invariant q.Valid() && q.a == old(q.a)
        invariant IsHeap(q.Elements())
        invariant dispatched + Ids(PopAll(q.Elements())) == old(dispatched) + Ids(PopAll(q0))
        invariant log == old(log)
        decreases q.n
      {
        PopStep(dispatched, q.Elements());
        var e := q.Pop();
        dispatched := dispatched + [e.value.id];
      }
    }

    /**
      `_execute_task(id, name)` under outcome `o`: the store ends with the
      row's final status; every write and notification attempt goes to `log`
      in order. The result says whether an exception escapes.
    */
    method ExecuteTask(id: int, name: string, o: Outcome) returns (raised: bool)
      requires Valid()
      modifies this, db
      ensures Valid()
      ensures db.rows == SetStatus(old(db.rows), id, FinalStatus(o)) && db.nextId == old(db.nextId)
      ensures log == old(log) + Trace(id, name, o)
      ensures raised == Raises(o)
      ensures dispatched == old(dispatched)
    {
      ghost var rows0 := db.rows;
      if o.workloadOk {
        db.UpdateTaskStatus(id, Completed);
        log := log + [StatusWrite(id, Completed)];
        log := log + [Notify(Success(name))];
        if o.successMailOk {
          return false;
        }
        db.UpdateTaskStatus(id, Failed);
        SetStatusTwice(rows0, id, Completed, Failed);
        log := log + [StatusWrite(id, Failed)];
        log := log + [Notify(Failure(name, SuccessMailError))];
      } else {
        db.UpdateTaskStatus(id, Failed);
        log := log + [StatusWrite(id, Failed)];
        log := log + [Notify(Failure(name, WorkloadError))];
      }
      raised := !o.failureMailOk;
    }
  }

  /** `send_email` as written: declared without `self`, so every call raises. */
  function AsWrittenOutcome(workloadOk: bool): (o: Outcome)
    ensures o.workloadOk == workloadOk && !o.successMailOk && !o.failureMailOk
  {
    Outcome(workloadOk, false, false)
  }

  /** As written, every task ends "failed" and `_execute_task` always raises. */
  lemma AsWrittenEveryTaskFails(rows: map<int, Task>, id: int, name: string, workloadOk: bool)
    requires id in rows
    ensures ApplyWrites(rows, Trace(id, name, AsWrittenOutcome(workloadOk)))[id].status == Failed
    ensures Raises(AsWrittenOutcome(workloadOk))
  {
    ExecuteEffect(rows, id, name, AsWrittenOutcome(workloadOk));
  }

  /** With a notifier that works, a task whose workload succeeds ends "completed" and nothing escapes. */
  lemma IntendedCompletes(rows: map<int, Task>, id: int, name: string, o: Outcome)
    requires id in rows && o.workloadOk && o.successMailOk
    ensures ApplyWrites(rows, Trace(id, name, o))[id].status == Completed
    ensures !Raises(o)
    ensures Trace(id, name, o) == [StatusWrite(id, Completed), Notify(Success(name))]
  {
    ExecuteEffect(rows, id, name, o);
  }
}
