/**
 * The `tasks` table and the seven statements of `queries.py` run against it:
 * select all, select pending, insert, update `completed`, delete, count pending
 * and count completed. The table is the field `rows` of `TasksTable`, in id
 * order, with the `AUTOINCREMENT` counter beside it.
 */
module Queries {

  /** One row of `tasks`; `completed` is 0 for a pending task. */
  datatype Task = Task(id: nat, description: string, priority: string, dueDate: string, completed: int)

  /** `WHERE completed = 0` */
  function Pending(rows: seq<Task>): (r: seq<Task>)
    ensures |r| <= |rows|
  {
    if rows == [] then []
    else
      var t := rows[|rows| - 1];
      Pending(rows[..|rows| - 1]) + if t.completed == 0 then [t] else []
  }

  /** `WHERE completed = 1` */
  function Completed(rows: seq<Task>): (r: seq<Task>)
    ensures |r| <= |rows|
  {
    if rows == [] then []
    else
      var t := rows[|rows| - 1];
      Completed(rows[..|rows| - 1]) + if t.completed == 1 then [t] else []
  }

  /** `UPDATE tasks SET completed = c WHERE id = id` */
  function SetCompleted(rows: seq<Task>, id: int, c: int): (r: seq<Task>)
    ensures |r| == |rows|
  {
    seq(|rows|, i requires 0 <= i < |rows| => if rows[i].id == id then rows[i].(completed := c) else rows[i])
  }

  /** `DELETE FROM tasks WHERE id = id` */
  function Without(rows: seq<Task>, id: int): (r: seq<Task>)
    ensures |r| <= |rows|
  {
    if rows == [] then []
    else
      var t := rows[|rows| - 1];
      Without(rows[..|rows| - 1], id) + if t.id != id then [t] else []
  }

  /** Ids grow strictly in table order, so no two rows share one. */
  ghost predicate IdsIncreasing(rows: seq<Task>) {
    forall i, j :: 0 <= i < j < |rows| ==> rows[i].id < rows[j].id
  }

  /** Every `completed` flag is 0 or 1. */
  ghost predicate Binary(rows: seq<Task>) {
    forall i :: 0 <= i < |rows| ==> rows[i].completed == 0 || rows[i].completed == 1
  }

  class TasksTable {
    var rows: seq<Task>
    var nextId: nat

    /** Ids are positive, strictly increasing and below the counter. */
    ghost predicate Valid()
      reads this
    {
      && nextId >= 1
      && IdsIncreasing(rows)
      && forall i :: 0 <= i < |rows| ==> 1 <= rows[i].id < nextId
    }

    constructor ()
      ensures Valid() && rows == [] && nextId == 1
    {
      rows := [];
      nextId := 1;
    }

    /** `SELECT * FROM tasks` */
    method SelectAll() returns (tasks: seq<Task>)
      ensures tasks == rows
    {
      tasks := rows;
    }

    /** `SELECT * FROM tasks WHERE completed = 0` */
    method SelectPending() returns (tasks: seq<Task>)
      ensures tasks == Pending(rows)
      ensures forall t :: t in tasks <==> t in rows && t.completed == 0
    {
      tasks := [];
      var i := 0;
      while i < |rows|
        invariant 0 <= i <= |rows|
        invariant tasks == Pending(rows[..i])
      {
        assert rows[..i + 1] == rows[..i] + [rows[i]];
        if rows[i].completed == 0 {
          tasks := tasks + [rows[i]];
        }
        i := i + 1;
      }
      assert rows[..i] == rows;
      PendingExact(rows);
    }

    /** `INSERT INTO tasks (description, priority, due_date) VALUES (...)`:
        appends a pending row under the next id. */
    method Insert(description: string, priority: string, dueDate: string) returns (id: nat)
      requires Valid()
      modifies this
      ensures Valid()
      ensures id == old(nextId) && nextId == id + 1
      ensures rows == old(rows) + [Task(id, description, priority, dueDate, 0)]
    {
      id := nextId;
      rows := rows + [Task(id, description, priority, dueDate, 0)];
      nextId := nextId + 1;
    }

    /** `UPDATE tasks SET completed = ? WHERE id = ?`, row by row. */
    method UpdateCompleted(c: int, id: int)
      requires Valid()
      modifies this
      ensures Valid() && nextId == old(nextId)
      ensures rows == SetCompleted(old(rows), id, c)
    {
      var i := 0;
      while i < |rows|
        invariant 0 <= i <= |rows| && |rows| == |old(rows)| && nextId == old(nextId)
        invariant forall k :: 0 <= k < i ==> rows[k] == SetCompleted(old(rows), id, c)[k]
        invariant forall k :: i <= k < |rows| ==> rows[k] == old(rows)[k]
        invariant forall k :: 0 <= k < |rows| ==> rows[k].id == old(rows)[k].id
      {
        if rows[i].id == id {
          rows := rows[i := rows[i].(completed := c)];
        }
        i := i + 1;
      }
    }

    /** `DELETE FROM tasks WHERE id = ?`: keeps every other row, in order. */
    method Delete(id: int)
      requires Valid()
      modifies this
      ensures Valid() && nextId == old(nextId)
      ensures rows == Without(old(rows), id)
    {
      var kept: seq<Task> := [];
      var i := 0;
      while i < |rows|
        invariant 0 <= i <= |rows|
        invariant kept == Without(rows[..i], id)
      {
        assert rows[..i + 1] == rows[..i] + [rows[i]];
        if rows[i].id != id {
          kept := kept + [rows[i]];
        }
        i := i + 1;
      }
      assert rows[..i] == rows;
      WithoutKeepsOrder(rows, id);
      rows := kept;
    }

    /** `SELECT COUNT(*) FROM tasks WHERE completed = 0` */
    method CountPending() returns (n: nat)
      ensures n == |Pending(rows)|
      ensures n == |set i | 0 <= i < |rows| && rows[i].completed == 0|
    {
      n := 0;
      var i := 0;
      while i < |rows|
        invariant 0 <= i <= |rows|
        invariant n == |Pending(rows[..i])|
      {
        assert rows[..i + 1] == rows[..i] + [rows[i]];
        if rows[i].completed == 0 {
          n := n + 1;
        }
        i := i + 1;
      }
      assert rows[..i] == rows;
      PendingCount(rows);
    }

    /** `SELECT COUNT(*) FROM tasks WHERE completed = 1` */
    method CountCompleted() returns (n: nat)
      ensures n == |Completed(rows)|
    {
      n := 0;
      var i := 0;
      while i < |rows|
        invariant 0 <= i <= |rows|
        invariant n == |Completed(rows[..i])|
      {
        assert rows[..i + 1] == rows[..i] + [rows[i]];
        if rows[i].completed == 1 {
          n := n + 1;
        }
        i := i + 1;
      }
      assert rows[..i] == rows;
    }
  }

  // ---------------------------------------------------------------------------
  // Properties of the statements

  /** Select-pending returns exactly the rows with `completed = 0`. */
  lemma {:induction false} PendingExact(rows: seq<Task>)
    ensures forall t :: t in Pending(rows) <==> t in rows && t.completed == 0
  {
    if rows != [] {
      var p := rows[..|rows| - 1];
      PendingExact(p);
      assert rows == p + [rows[|rows| - 1]];
    }
  }

  /** Count-pending counts the positions that hold a pending row. */
  lemma {:induction false} PendingCount(rows: seq<Task>)
    ensures |Pending(rows)| == |set i | 0 <= i < |rows| && rows[i].completed == 0|
  {
    if rows != [] {
      var n := |rows| - 1;
      var p := rows[..n];
      PendingCount(p);
      var before := set i | 0 <= i < |p| && p[i].completed == 0;
      var after := set i | 0 <= i < |rows| && rows[i].completed == 0;
      if rows[n].completed == 0 {
        assert after == before + {n};
      } else {
        assert after == before;
      }
    }
  }

  /** When every flag is 0 or 1, the pending and the completed rows together are
      all the rows, so the two counts add up to the table's size. */
  lemma {:induction false} CountsPartition(rows: seq<Task>)
    requires Binary(rows)
    ensures |Pending(rows)| + |Completed(rows)| == |rows|
  {
    if rows != [] {
      CountsPartition(rows[..|rows| - 1]);
    }
  }

  /** Update changes only the `completed` flag, and only on the row with the
      given id; every other row and field is unchanged, and an id that is not in
      the table changes nothing. */
  lemma UpdateOnlyTarget(rows: seq<Task>, id: int, c: int)
    ensures var r := SetCompleted(rows, id, c);
      && (forall i :: 0 <= i < |rows| && rows[i].id != id ==> r[i] == rows[i])
      && (forall i :: 0 <= i < |rows| && rows[i].id == id ==> r[i] == rows[i].(completed := c))
      && (forall i :: 0 <= i < |rows| ==> r[i].id == rows[i].id)
      && ((forall i :: 0 <= i < |rows| ==> rows[i].id != id) ==> r == rows)
  {
  }

  /** Updating with 0 or 1 keeps every flag 0 or 1. */
  lemma UpdateKeepsBinary(rows: seq<Task>, id: int, c: int)
    requires Binary(rows) && (c == 0 || c == 1)
    ensures Binary(SetCompleted(rows, id, c))
  {
  }

  /** Delete removes exactly the rows with the given id and keeps the others in
      their order. */
  lemma WithoutKeepsOrder(rows: seq<Task>, id: int)
    ensures forall t :: t in Without(rows, id) <==> t in rows && t.id != id
    ensures IdsIncreasing(rows) ==> IdsIncreasing(Without(rows, id))
  {
    WithoutMembers(rows, id);
    if IdsIncreasing(rows) {
      WithoutIncreasing(rows, id);
    }
  }

  lemma {:induction false} WithoutMembers(rows: seq<Task>, id: int)
    ensures forall t :: t in Without(rows, id) <==> t in rows && t.id != id
  {
    if rows != [] {
      var p := rows[..|rows| - 1];
      WithoutMembers(p, id);
      assert rows == p + [rows[|rows| - 1]];
    }
  }

  lemma {:induction false} WithoutIncreasing(rows: seq<Task>, id: int)
    requires IdsIncreasing(rows)
    ensures IdsIncreasing(Without(rows, id))
  {
    if rows != [] {
      var n := |rows| - 1;
      var p, t := rows[..n], rows[n];
      assert IdsIncreasing(p);
      WithoutIncreasing(p, id);
      var w := Without(p, id);
      if t.id != id {
        forall k | 0 <= k < |w| ensures w[k].id < t.id {
          WithoutMembers(p, id);
          assert w[k] in w;
          var m :| 0 <= m < |p| && p[m] == w[k];
          assert rows[m] == p[m];
        }
      }
    }
  }

  /** Deleting an id that no row has changes nothing. */
  lemma {:induction false} DeleteAbsent(rows: seq<Task>, id: int)
    requires forall i :: 0 <= i < |rows| ==> rows[i].id != id
    ensures Without(rows, id) == rows
  {
    if rows != [] {
      var p := rows[..|rows| - 1];
      DeleteAbsent(p, id);
      assert rows == p + [rows[|rows| - 1]];
    }
  }

  /** In a table with unique ids, deleting an id that is present removes exactly
      one row. */
  lemma {:induction false} DeletePresent(rows: seq<Task>, id: int, k: nat)
    requires IdsIncreasing(rows)
    requires k < |rows| && rows[k].id == id
    ensures |Without(rows, id)| == |rows| - 1
  {
    var n := |rows| - 1;
    var p := rows[..n];
    if k == n {
      forall i | 0 <= i < |p| ensures p[i].id != id {
        assert rows[i].id < rows[n].id;
      }
      DeleteAbsent(p, id);
    } else {
      assert rows[k].id < rows[n].id;
      DeletePresent(p, id, k);
    }
  }
}
