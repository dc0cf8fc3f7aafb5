/**
  The store of task_scheduler/database.py: the `tasks` table held as a
  map from row id to row, with SQLite's AUTOINCREMENT counter as `nextId`.
  Each method does what the corresponding SQL statement does to the table.
*/
module TaskStore {
  import opened Ordering
  import opened DueDates
  import opened Tasks

  /** The key of `ORDER BY priority ASC, due_date ASC`. */
  function RowKey(t: Task): seq<int> { [t.priority] + Codes(t.due) }

  function RowId(t: Task): int { t.id }

  /** The listing order: priority, then due date (as text), then id. */
  function ListedBefore(a: Task, b: Task): (r: bool)
    ensures r ==> a.priority <= b.priority && a != b
  {
    || a.priority < b.priority
    || (a.priority == b.priority && LexLe(Codes(a.due), Codes(b.due)) && a.due != b.due)
    || (a.priority == b.priority && a.due == b.due && a.id < b.id)
  }

  lemma CodesInjective(x: string, y: string)
    requires Codes(x) == Codes(y)
    ensures x == y
  {
    assert |x| == |y|;
    forall i | 0 <= i < |x| ensures x[i] == y[i] {
      assert Codes(x)[i] == Codes(y)[i];
    }
  }

  /** Ordering by `RowKey`, ties by id, is the listing order. */
  lemma RowKeyOrder(a: Task, b: Task)
    ensures KeyThenRankBefore(a, b, RowKey, RowId) <==> ListedBefore(a, b)
  {
    var pa, pb := [a.priority], [b.priority];
    LexConcat(pa, Codes(a.due), pb, Codes(b.due));
    assert LexLe(pa, pb) <==> a.priority <= b.priority;
    if RowKey(a) == RowKey(b) {
      assert RowKey(a)[0] == a.priority && RowKey(b)[0] == b.priority;
      assert Codes(a.due) == RowKey(a)[1..] && Codes(b.due) == RowKey(b)[1..];
      CodesInjective(a.due, b.due);
    }
  }

  /** `get_tasks(status)`: a falsy status (None or "") selects every row. */
  predicate Selected(t: Task, status: Option<string>)
  {
    status.None? || status.value == "" || StatusName(t.status) == status.value
  }

  /** The rows with ids lo..hi-1 in id order: the order of a scan of the table. */
  function ScanFrom(rows: map<int, Task>, lo: int, hi: int): (r: seq<Task>)
    requires forall k :: k in rows ==> rows[k].id == k
    ensures forall t :: t in r <==> lo <= t.id < hi && t.id in rows && rows[t.id] == t
    decreases hi - lo
  {
    if lo >= hi then []
    else (if lo in rows then [rows[lo]] else []) + ScanFrom(rows, lo + 1, hi)
  }

  lemma {:induction false} ScanIncreasing(rows: map<int, Task>, lo: int, hi: int)
    requires forall k :: k in rows ==> rows[k].id == k
    ensures RankIncreasing(ScanFrom(rows, lo, hi), RowId)
    ensures forall t :: t in ScanFrom(rows, lo, hi) ==> lo <= t.id
    decreases hi - lo
  {
    if lo < hi {
      ScanIncreasing(rows, lo + 1, hi);
    }
  }

  /** The rows of `s` that `get_tasks(status)` keeps, in their order in `s`. */
  function Select(s: seq<Task>, status: Option<string>): (r: seq<Task>)
    ensures forall t :: t in r <==> t in s && Selected(t, status)
  {
    if s == [] then []
    else (if Selected(s[0], status) then [s[0]] else []) + Select(s[1..], status)
  }

  lemma {:induction false} SelectIncreasing(s: seq<Task>, status: Option<string>)
    requires RankIncreasing(s, RowId)
    ensures RankIncreasing(Select(s, status), RowId)
    decreases |s|
  {
    if s != [] {
      assert RankIncreasing(s[1..], RowId);
      SelectIncreasing(s[1..], status);
      forall t | t in Select(s[1..], status) ensures s[0].id < t.id {
        var k :| 0 <= k < |s[1..]| && s[1..][k] == t;
        assert s[k + 1] == t;
      }
    }
  }

  /** `UPDATE tasks SET status = s WHERE id = id` on a table. */
  function SetStatus(rows: map<int, Task>, id: int, s: Status): (r: map<int, Task>)
    ensures r.Keys == rows.Keys
    ensures forall k :: k in rows && k != id ==> r[k] == rows[k]
    ensures id in rows ==> r[id] == rows[id].(status := s)
  {
    if id in rows then rows[id := rows[id].(status := s)] else rows
  }

  /** Ids are below the counter and match their keys; every row passed add_task's checks. */
  ghost predicate Stored(rows: map<int, Task>, nextId: int)
  {
    && nextId >= 1
    && (forall k :: k in rows ==> 1 <= k < nextId && rows[k].id == k)
    && (forall k {:trigger WellFormed(rows[k])} :: k in rows ==> WellFormed(rows[k]))
  }

  /** A status write keeps every stored row well formed: the checks never look at the status. */
  lemma SetStatusStored(rows: map<int, Task>, nextId: int, id: int, s: Status)
    requires Stored(rows, nextId)
    ensures Stored(SetStatus(rows, id, s), nextId)
  {
    var r := SetStatus(rows, id, s);
    forall k | k in r ensures WellFormed(r[k]) {
      assert WellFormed(rows[k]);
      if k == id {
        WellFormedAnyStatus(rows[k], s);
      }
    }
  }

  class Database {
    var rows: map<int, Task>
    var nextId: int

    ghost predicate Valid()
      reads this
    {
      Stored(rows, nextId)
    }

    /** A fresh, empty table. */
    constructor ()
      ensures Valid() && rows == map[] && nextId == 1
    {
      rows := map[];
      nextId := 1;
    }

    /** `add_task`: validates, then inserts a pending row under the next id. */
    method AddTask(name: string, priority: int, due: string) returns (r: Result<int>)
      requires Valid()
      modifies this
      ensures Valid()
      ensures CheckNewTask(name, priority, due).Some? ==>
        && r == Err(InvalidInput(CheckNewTask(name, priority, due).value))
        && rows == old(rows) && nextId == old(nextId)
      ensures CheckNewTask(name, priority, due) == None ==>
        && r == Ok(old(nextId))
        && old(nextId) !in old(rows)
        && rows == old(rows)[old(nextId) := Task(old(nextId), name, priority, due, Pending)]
        && |rows| == |old(rows)| + 1
        && nextId == old(nextId) + 1
    {
      var check := CheckNewTask(name, priority, due);
      if check.Some? {
        return Err(InvalidInput(check.value));
      }
      var id := nextId;
      var row := Task(id, name, priority, due, Pending);
      assert WellFormed(row);
      assert id !in rows;
      ghost var before := rows;
      rows := rows[id := row];
      nextId := nextId + 1;
      assert Valid() by {
        forall k | k in rows
          ensures 1 <= k < nextId && rows[k].id == k && WellFormed(rows[k])
        {
          if k != id { assert k in before && rows[k] == before[k]; }
        }
      }
      r := Ok(id);
    }

    /**
      `get_tasks(status)`: exactly the selected rows, each once, in order of
      priority, then due date, then id.
    */
    function GetTasks(status: Option<string>): (r: seq<Task>)
      reads this
      requires Valid()
      ensures forall t :: t in r <==> t.id in rows && rows[t.id] == t && Selected(t, status)
      ensures forall i, j :: 0 <= i < j < |r| ==> ListedBefore(r[i], r[j])
    {
      var scanned := ScanFrom(rows, 1, nextId);
      var selected := Select(scanned, status);
      ScanIncreasing(rows, 1, nextId);
      SelectIncreasing(scanned, status);
      SortByKeyThenRank(selected, RowKey, RowId);
      var r := SortBy(selected, RowKey);
      assert forall t :: t in r <==> t in selected by {
        forall t ensures t in r <==> t in selected {
          assert t in r <==> t in multiset(r);
        }
      }
      forall i, j | 0 <= i < j < |r| ensures ListedBefore(r[i], r[j]) {
        RowKeyOrder(r[i], r[j]);
      }
      r
    }

    /** `get_task_by_id`: the row whose id column is `id`, if there is one. */
    function GetTaskById(id: int): (r: Option<Task>)
      reads this
      requires Valid()
      ensures r.Some? ==> r.value.id == id && id in rows && rows[id] == r.value
      ensures r.None? <==> forall k :: k in rows ==> rows[k].id != id
    {
      if id in rows then Some(rows[id]) else None
    }

    /** `update_task_status`: only that row's status changes; an absent id changes nothing. */
    method UpdateTaskStatus(id: int, s: Status)
      requires Valid()
      modifies this
      ensures Valid()
      ensures rows == SetStatus(old(rows), id, s) && nextId == old(nextId)
    {
      SetStatusStored(rows, nextId, id, s);
      rows := SetStatus(rows, id, s);
    }

    /** `reschedule_task`: date check first, then the update, which fails on a missing row. */
    method RescheduleTask(id: int, newDue: string) returns (r: Result<()>)
      requires Valid()
      modifies this
      ensures Valid() && nextId == old(nextId)
      ensures !IsValidDueDate(newDue) ==> r == Err(InvalidDueDateFormat) && rows == old(rows)
      ensures IsValidDueDate(newDue) && id !in old(rows) ==> r == Err(NotFound(id)) && rows == old(rows)
      ensures IsValidDueDate(newDue) && id in old(rows) ==>
        r == Ok(()) && rows == old(rows)[id := old(rows)[id].(due := newDue)]
    {
      if !IsValidDueDate(newDue) {
        return Err(InvalidDueDateFormat);
      }
      var rowcount := if id in rows then 1 else 0;
      if rowcount == 1 {
        ghost var before := rows;
        var row := rows[id].(due := newDue);
        assert WellFormed(row) by {
          assert WellFormed(rows[id]);
        }
        rows := rows[id := row];
        assert Valid() by {
          forall k | k in rows
            ensures 1 <= k < nextId && rows[k].id == k && WellFormed(rows[k])
          {
            if k != id { assert k in before && rows[k] == before[k]; }
          }
        }
      }
      if rowcount == 0 {
        return Err(NotFound(id));
      }
      r := Ok(());
    }

    /** `delete_task`: removes the row, reporting whether there was one. */
    method DeleteTask(id: int) returns (removed: bool)
      requires Valid()
      modifies this
      ensures Valid() && nextId == old(nextId)
      ensures removed == (id in old(rows))
      ensures rows == old(rows) - {id}
      ensures GetTaskById(id) == None
    {
      removed := id in rows;
      rows := rows - {id};
    }
  }
}
