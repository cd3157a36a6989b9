/**
 * The task manager of `task_manager.py`: the input checks of `add_task`,
 * `update_task` and `delete_task`, the selection of `get_all_tasks` and the
 * figures of `get_statistics`, run against the `tasks` table. A `ValueError`
 * is a `Failure` carrying its message; the table is left unchanged then.
 */
module TaskManager {
  import opened Wrappers
  import opened Ascii
  import opened Queries

  const EmptyDescription: string := "Task description cannot be empty"
  const BadPriority: string := "Priority must be Low, Medium, or High"
  const BadDueDate: string := "Due date must be in YYYY-MM-DD format"
  const BadTaskId: string := "Task ID must be a positive integer"

  /** The priorities a task may have. */
  const Priorities: set<string> := {"Low", "Medium", "High"}

  /** The priority as stored: `priority.capitalize()`, when that is one of the
      three priorities. */
  function StoredPriority(priority: string): (r: Option<string>)
    ensures r.Some? <==> Capitalize(priority) in Priorities
    ensures r.Some? ==> r.value == Capitalize(priority)
  {
    var p := Capitalize(priority);
    if p in Priorities then Some(p) else None
  }

  /** The due-date check: three `-`-separated parts of 4, 2 and 2 characters, each
      accepted by `int()`. Month and day ranges are not checked. */
  predicate DueDateValid(dueDate: string) {
    var parts := Split(dueDate, '-');
    && |parts| == 3
    && |parts[0]| == 4 && |parts[1]| == 2 && |parts[2]| == 2
    && ParseInt(parts[0]).Some? && ParseInt(parts[1]).Some? && ParseInt(parts[2]).Some?
  }

  /** The checks of `add_task`, in order: the row's fields to insert (the
      capitalised priority in place of the given one), or the first failing
      check's message. */
  function ValidateTask(description: string, priority: string, dueDate: string)
    : (r: Result<(string, string, string), string>)
    ensures r.Success? <==> !IsBlank(description) && StoredPriority(priority).Some? && DueDateValid(dueDate)
    ensures r.Success? ==> r.value == (description, Capitalize(priority), dueDate)
    ensures r.Failure? ==>
      r.error == if IsBlank(description) then EmptyDescription
                 else if StoredPriority(priority).None? then BadPriority
                 else BadDueDate
  {
    StripEmptyIffBlank(description);
    if Strip(description) == [] then Failure(EmptyDescription)
    else
      match StoredPriority(priority)
      case None => Failure(BadPriority)
      case Some(p) =>
        if !DueDateValid(dueDate) then Failure(BadDueDate)
        else Success((description, p, dueDate))
  }

  /** The `task_id` argument: an integer, a string, or `None`. */
  datatype TaskIdArg = IntArg(n: int) | TextArg(s: string) | NoneArg

  /** `int(task_id)`, which must be positive. */
  function ParseTaskId(arg: TaskIdArg): (r: Result<int, string>)
    ensures r.Success? ==> r.value > 0
    ensures arg.IntArg? ==> (r.Success? <==> arg.n > 0) && (r.Success? ==> r.value == arg.n)
    ensures arg.TextArg? ==> (r.Success? <==> ParseInt(arg.s).Some? && ParseInt(arg.s).value > 0)
    ensures arg.NoneArg? ==> r.Failure?
    ensures r.Failure? ==> r.error == BadTaskId
  {
    var parsed := match arg
      case IntArg(n) => Some(n)
      case TextArg(s) => ParseInt(s)
      case NoneArg => None;
    if parsed.Some? && parsed.value > 0 then Success(parsed.value) else Failure(BadTaskId)
  }

  /** The task figures: total, pending, completed, and the completion rate in
      percent when there is a task. */
  datatype Statistics = Statistics(total: nat, pending: nat, completed: nat, rate: Option<real>)

  function StatisticsOf(pending: nat, completed: nat): (s: Statistics)
    ensures s.total == pending + completed && s.pending == pending && s.completed == completed
    ensures s.rate.Some? <==> s.total > 0
  {
    var total := pending + completed;
    Statistics(total, pending, completed,
      if total > 0 then Some(completed as real / total as real * 100.0) else None)
  }

  /** `add_task`: validates the input and inserts the row. */
  method AddTask(table: TasksTable, description: string, priority: string, dueDate: string)
    returns (r: Result<nat, string>)
    requires table.Valid()
    modifies table
    ensures table.Valid()
    ensures var v := ValidateTask(description, priority, dueDate);
      && (v.Failure? ==> r == Failure(v.error) && table.rows == old(table.rows) && table.nextId == old(table.nextId))
      && (v.Success? ==>
            && r == Success(old(table.nextId))
            && table.rows == old(table.rows) + [Task(old(table.nextId), description, Capitalize(priority), dueDate, 0)]
            && table.nextId == old(table.nextId) + 1)
  {
    var v := ValidateTask(description, priority, dueDate);
    if v.Failure? {
      return Failure(v.error);
    }
    var id := table.Insert(description, v.value.1, dueDate);
    r := Success(id);
  }

  /** `update_task`: validates the id, then sets `completed` to 1 or 0. */
  method UpdateTask(table: TasksTable, taskId: TaskIdArg, completed: bool) returns (r: Result<int, string>)
    requires table.Valid()
    modifies table
    ensures table.Valid() && table.nextId == old(table.nextId)
    ensures r == ParseTaskId(taskId)
    ensures r.Failure? ==> table.rows == old(table.rows)
    ensures r.Success? ==> table.rows == SetCompleted(old(table.rows), r.value, if completed then 1 else 0)
  {
    r := ParseTaskId(taskId);
    if r.Success? {
      table.UpdateCompleted(if completed then 1 else 0, r.value);
    }
  }

  /** `delete_task`: validates the id, then deletes its row. */
  method DeleteTask(table: TasksTable, taskId: TaskIdArg) returns (r: Result<int, string>)
    requires table.Valid()
    modifies table
    ensures table.Valid() && table.nextId == old(table.nextId)
    ensures r == ParseTaskId(taskId)
    ensures r.Failure? ==> table.rows == old(table.rows)
    ensures r.Success? ==> table.rows == Without(old(table.rows), r.value)
  {
    r := ParseTaskId(taskId);
    if r.Success? {
      table.Delete(r.value);
    }
  }

  /** `get_all_tasks`: every row, or only the pending ones. */
  method GetAllTasks(table: TasksTable, showCompleted: bool) returns (tasks: seq<Task>)
    ensures showCompleted ==> tasks == table.rows
    ensures !showCompleted ==> tasks == Pending(table.rows)
    ensures !showCompleted ==> forall t :: t in tasks <==> t in table.rows && t.completed == 0
  {
    if showCompleted {
      tasks := table.SelectAll();
    } else {
      tasks := table.SelectPending();
    }
  }

  /** `get_statistics`: the two counts, their total and the completion rate. */
  method GetStatistics(table: TasksTable) returns (s: Statistics)
    ensures s == StatisticsOf(|Pending(table.rows)|, |Completed(table.rows)|)
    ensures Binary(table.rows) ==> s.total == |table.rows|
  {
    var pending := table.CountPending();
    var completed := table.CountCompleted();
    if Binary(table.rows) {
      CountsPartition(table.rows);
    }
    s := StatisticsOf(pending, completed);
  }

  // ---------------------------------------------------------------------------
  // Properties of the checks

  /** The completion rate lies between 0 and 100, and is 100 exactly when no task
      is pending. */
  lemma RateBounds(pending: nat, completed: nat)
    requires pending + completed > 0
    ensures var r := StatisticsOf(pending, completed).rate.value;
      0.0 <= r <= 100.0 && (r == 100.0 <==> pending == 0)
  {
    var t := (pending + completed) as real;
    var q := completed as real / t;
    assert q * t == completed as real;
  }

  /** Capitalising is case-blind and idempotent: a stored priority is accepted
      again unchanged, and any spelling of a priority is stored the same way. */
  lemma {:induction false} PriorityNormalForm(priority: string)
    requires StoredPriority(priority).Some?
    ensures StoredPriority(StoredPriority(priority).value) == StoredPriority(priority)
  {
    var p := Capitalize(priority);
    assert p in Priorities;
    if p == "Low" {
      assert Capitalize("Low") == "Low";
    } else if p == "Medium" {
      assert Capitalize("Medium") == "Medium";
    } else {
      assert Capitalize("High") == "High";
    }
  }

  /** Any mixture of cases of `high` is stored as `High`; `Invalid` is refused. */
  lemma PriorityExamples()
    ensures StoredPriority("high") == Some("High")
    ensures StoredPriority("hIGH") == Some("High")
    ensures StoredPriority("Invalid") == None
  {
    assert Capitalize("high") == "High";
    assert Capitalize("hIGH") == "High";
    NotAPriority("Invalid");
  }

  /** A priority whose length is none of the three priorities' lengths is
      refused. */
  lemma NotAPriority(priority: string)
    requires |priority| != 3 && |priority| != 4 && |priority| != 6
    ensures StoredPriority(priority).None?
  {
    var c := Capitalize(priority);
    assert |c| == |priority|;
    assert c != "Low" && c != "Medium" && c != "High";
  }

  /** A valid due date has the shape `YYYY-MM-DD`: ten characters with the dashes
      at positions 4 and 7 and no dash anywhere else. */
  lemma DueDateShape(dueDate: string)
    requires DueDateValid(dueDate)
    ensures |dueDate| == 10 && dueDate[4] == '-' && dueDate[7] == '-'
    ensures forall i :: 0 <= i < 10 && i != 4 && i != 7 ==> dueDate[i] != '-'
  {
    var parts := Split(dueDate, '-');
    SplitJoin(dueDate, '-');
    SplitNoSeparator(dueDate, '-');
    assert |parts| == 3 && |parts[0]| == 4 && |parts[1]| == 2 && |parts[2]| == 2;
    var y, m, d := parts[0], parts[1], parts[2];
    assert '-' !in y && '-' !in m && '-' !in d;
    ThreeParts(parts);
    JoinThree(y, m, d, '-');
    DashesAt(y, m, d);
  }

  lemma ThreeParts<T>(s: seq<T>)
    requires |s| == 3
    ensures s == [s[0], s[1], s[2]]
  {
  }

  /** Where the dashes of `y-m-d` are, for parts of 4, 2 and 2 characters. */
  lemma DashesAt(y: string, m: string, d: string)
    requires |y| == 4 && |m| == 2 && |d| == 2
    requires '-' !in y && '-' !in m && '-' !in d
    ensures var e := y + ['-'] + m + ['-'] + d;
      && |e| == 10 && e[4] == '-' && e[7] == '-'
      && forall i :: 0 <= i < 10 && i != 4 && i != 7 ==> e[i] != '-'
  {
    var e := y + ['-'] + m + ['-'] + d;
    forall i | 0 <= i < 10 && i != 4 && i != 7 ensures e[i] != '-' {
      if i < 4 {
        assert e[i] == y[i];
      } else if i < 7 {
        assert e[i] == m[i - 5];
      } else {
        assert e[i] == d[i - 8];
      }
    }
  }

  /** Eight digits with dashes at positions 4 and 7 make a valid due date. */
  lemma {:induction false} DigitDatesValid(y: string, m: string, d: string)
    requires |y| == 4 && |m| == 2 && |d| == 2
    requires forall i :: 0 <= i < 4 ==> IsDigit(y[i])
    requires forall i :: 0 <= i < 2 ==> IsDigit(m[i]) && IsDigit(d[i])
    ensures DueDateValid(y + "-" + m + "-" + d)
  {
    assert Split(y + "-" + m + "-" + d, '-') == [y, m, d] by {
      assert '-' !in y && '-' !in m && '-' !in d;
      SplitDate(y, m, d);
    }
    assert ParseInt(y).Some? by {
      ParseDigits(y);
    }
    assert ParseInt(m).Some? && ParseInt(d).Some? by {
      ParseDigits(m);
      ParseDigits(d);
    }
  }

  /** A date of three dash-free parts splits back into them. */
  lemma SplitDate(y: string, m: string, d: string)
    requires '-' !in y && '-' !in m && '-' !in d
    ensures Split(y + "-" + m + "-" + d, '-') == [y, m, d]
  {
    var md := m + "-" + d;
    assert Split(md, '-') == [m, d] by {
      SplitFirst(m, '-', d);
      assert Split(d, '-') == [d];
    }
    assert y + "-" + m + "-" + d == y + "-" + md;
    SplitFirst(y, '-', md);
  }

  /** A blank description is refused first, whatever the other fields hold. */
  lemma BlankDescriptionRefused(priority: string, dueDate: string)
    ensures ValidateTask("", priority, dueDate) == Failure(EmptyDescription)
  {
    var r := ValidateTask("", priority, dueDate);
    assert IsBlank("");
    assert r.Failure?;
  }

  /** The priority `Invalid` is refused, whatever the due date. */
  lemma InvalidPriorityRefused(dueDate: string)
    ensures ValidateTask("Task", "Invalid", dueDate) == Failure(BadPriority)
  {
    var r := ValidateTask("Task", "Invalid", dueDate);
    assert !IsBlank("Task") by {
      assert !IsSpace("Task"[0]);
    }
    assert StoredPriority("Invalid").None? by {
      NotAPriority("Invalid");
    }
    assert r.Failure?;
  }

  /** A date written with slashes is refused. */
  lemma SlashDateRefused()
    ensures ValidateTask("Task", "Low", "2025/12/31") == Failure(BadDueDate)
  {
    assert !IsSpace("Task"[0]);
    assert Capitalize("Low") == "Low";
    assert '-' !in "2025/12/31";
  }

  lemma DateLiteral()
    ensures "2025" + "-" + "12" + "-" + "31" == "2025-12-31"
  {
  }

  /** A well-formed task is accepted as given. */
  lemma ValidTaskAccepted()
    ensures ValidateTask("Test Task", "High", "2025-12-31") == Success(("Test Task", "High", "2025-12-31"))
  {
    assert !IsSpace("Test Task"[0]);
    assert Capitalize("High") == "High";
    DigitDatesValid("2025", "12", "31");
    DateLiteral();
  }

  /** The refused ids: `"abc"` does not parse, and `-10` is not positive. */
  lemma TaskIdRefusals()
    ensures ParseTaskId(TextArg("abc")) == Failure(BadTaskId)
    ensures ParseTaskId(IntArg(-10)) == Failure(BadTaskId)
    ensures ParseTaskId(IntArg(1)) == Success(1)
  {
    assert ParseTaskId(IntArg(1)) == Success(1);
    assert ParseTaskId(IntArg(-10)) == Failure(BadTaskId);
    assert ParseTaskId(TextArg("abc")) == Failure(BadTaskId) by {
      LetterFirstNotInt("abc");
    }
  }

  /** Text that starts with a letter is not an integer literal. */
  lemma LetterFirstNotInt(s: string)
    requires |s| > 0 && IsLower(s[0])
    ensures ParseInt(s) == None
  {
    StripKeepsFirst(s);
    NoLiteralBody(Strip(s));
  }
}
