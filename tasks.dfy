/**
  Task records of the scheduler's store and the input checks that
  `Database.add_task` and `Database.reschedule_task` run before they touch
  the table (task_scheduler/database.py).
*/
module Tasks {
  import opened DueDates

  datatype Option<T> = None | Some(value: T)

  /** The closed set of statuses the table's CHECK constraint admits. */
  datatype Status = Pending | Completed | Failed

  /** The text stored in the `status` column. */
  function StatusName(s: Status): string
  {
    match s
    case Pending => "pending"
    case Completed => "completed"
    case Failed => "failed"
  }

  lemma StatusNameInjective(s: Status, t: Status)
    requires StatusName(s) == StatusName(t)
    ensures s == t
  {
  }

  /** One row of the `tasks` table, with named fields. */
  datatype Task = Task(id: int, name: string, priority: int, due: string, status: Status)

  /** Why `add_task` refuses its input ("Invalid input: ..."). */
  datatype InputError = BadDueDate | PriorityOutOfRange | EmptyName

  datatype StoreError =
    | InvalidInput(cause: InputError)   // add_task
    | InvalidDueDateFormat              // reschedule_task, bad date
    | NotFound(id: int)                 // reschedule_task, no such row

  datatype Result<T> = Ok(value: T) | Err(error: StoreError)

  /** The characters Python's `str.strip()` removes (`str.isspace`). */
  predicate IsSpace(c: char)
  {
    var k := c as int;
    || k == 0x20 || 0x09 <= k <= 0x0d || 0x1c <= k <= 0x1f
    || k == 0x85 || k == 0xa0 || k == 0x1680 || 0x2000 <= k <= 0x200a
    || k == 0x2028 || k == 0x2029 || k == 0x202f || k == 0x205f || k == 0x3000
  }

  function TrimStart(s: string): (r: string)
    ensures |r| <= |s|
    ensures r == s[|s| - |r|..]
    ensures r != [] ==> !IsSpace(r[0])
    ensures forall i :: 0 <= i < |s| - |r| ==> IsSpace(s[i])
  {
    if s != [] && IsSpace(s[0]) then TrimStart(s[1..]) else s
  }

  function TrimEnd(s: string): (r: string)
    ensures |r| <= |s|
    ensures r == s[..|r|]
    ensures r != [] ==> !IsSpace(r[|r| - 1])
    ensures forall i :: |r| <= i < |s| ==> IsSpace(s[i])
  {
    if s != [] && IsSpace(s[|s| - 1]) then TrimEnd(s[..|s| - 1]) else s
  }

  /** Python's `s.strip()`. */
  function Strip(s: string): (r: string)
    ensures |r| <= |s|
    ensures r != [] ==> !IsSpace(r[0]) && !IsSpace(r[|r| - 1])
  {
    TrimEnd(TrimStart(s))
  }

  /** `name.strip()` is empty exactly when every character of `name` is whitespace. */
  lemma StripEmptyIffBlank(name: string)
    ensures Strip(name) == [] <==> forall i :: 0 <= i < |name| ==> IsSpace(name[i])
  {
    var t := TrimStart(name);
    if Strip(name) == [] {
      forall i | 0 <= i < |name| ensures IsSpace(name[i]) {
        if i >= |name| - |t| {
          assert name[i] == t[i - (|name| - |t|)];
        }
      }
    } else {
      var r := Strip(name);
      assert !IsSpace(r[0]);
      assert r[0] == t[0];
      assert t[0] == name[|name| - |t|];
    }
  }

  /**
    The checks of add_task, in the order it makes them: the date first, then
    the priority range, then the name.
  */
  function CheckNewTask(name: string, priority: int, due: string): (r: Option<InputError>)
    ensures r == None <==> IsValidDueDate(due) && 1 <= priority <= 10 && Strip(name) != []
    ensures r == Some(BadDueDate) <==> !IsValidDueDate(due)
    ensures r == Some(PriorityOutOfRange) <==> IsValidDueDate(due) && !(1 <= priority <= 10)
  {
    if !IsValidDueDate(due) then Some(BadDueDate)
    else if !(1 <= priority <= 10) then Some(PriorityOutOfRange)
    else if Strip(name) == [] then Some(EmptyName)
    else None
  }

  /** What every stored row satisfies: the checks add_task made, and the table's CHECKs. */
  predicate WellFormed(t: Task)
  {
    CheckNewTask(t.name, t.priority, t.due) == None
  }

  /** The checks never look at the status. */
  lemma WellFormedAnyStatus(t: Task, s: Status)
    requires WellFormed(t)
    ensures WellFormed(t.(status := s))
  {
    var u := t.(status := s);
    assert u.name == t.name && u.priority == t.priority && u.due == t.due;
  }

  lemma WellFormedDue(t: Task)
    requires WellFormed(t)
    ensures IsValidDueDate(t.due) && HasLayout(t.due)
  {
  }
}
