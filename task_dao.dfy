/**
 * The write side of the task table: `insert` with `OnConflictStrategy.REPLACE`, `update`
 * and `delete` by primary key, and `deleteCompletedTasks`. The table is a map from id to
 * row; the key generator is SQLite's AUTOINCREMENT counter (Room declares the
 * `autoGenerate` key that way), so a generated id is larger than every id used before.
 */
module TaskDao {
  import opened TaskData
  import opened TaskQuery

  /** The table after a REPLACE write of `t` (whose key is assigned) under its own id. */
  function Stored(table: map<int, Task>, t: Task): (r: map<int, Task>)
    ensures r.Keys == table.Keys + {t.id}
    ensures r[t.id] == t
    ensures forall k :: k in table && k != t.id ==> r[k] == table[k]
  {
    table[t.id := t]
  }

  /** The table after `update`: the row with `t`'s id, if there is one, becomes `t`. */
  function Updated(table: map<int, Task>, t: Task): (r: map<int, Task>)
    ensures r.Keys == table.Keys
    ensures t.id in table ==> r[t.id] == t
    ensures t.id !in table ==> r == table
    ensures forall k :: k in table && k != t.id ==> r[k] == table[k]
  {
    if t.id in table then table[t.id := t] else table
  }

  /** The table after `delete`: the row with `t`'s id, if there is one, is gone. */
  function Deleted(table: map<int, Task>, t: Task): (r: map<int, Task>)
    ensures r.Keys == table.Keys - {t.id}
    ensures forall k :: k in r ==> r[k] == table[k]
  {
    table - {t.id}
  }

  /** The table after `DELETE FROM task_table WHERE completed = 1`. */
  function WithoutCompleted(table: map<int, Task>): (r: map<int, Task>)
    ensures forall k :: k in r <==> k in table && !table[k].completed
    ensures forall k :: k in r ==> r[k] == table[k]
  {
    map k | k in table && !table[k].completed :: table[k]
  }

  /** After deleting the completed tasks no completed task remains. */
  lemma NoCompletedRemain(table: map<int, Task>)
    ensures forall k :: k in WithoutCompleted(table) ==> !WithoutCompleted(table)[k].completed
  {
  }

  /** Deleting the completed tasks twice leaves the same table as deleting them once. */
  lemma WithoutCompletedIdempotent(table: map<int, Task>)
    ensures WithoutCompleted(WithoutCompleted(table)) == WithoutCompleted(table)
  {
    var once := WithoutCompleted(table);
    assert WithoutCompleted(once).Keys == once.Keys;
  }

  /** A table without completed tasks is left as it was. */
  lemma WithoutCompletedKeepsActiveTable(table: map<int, Task>)
    requires forall k :: k in table ==> !table[k].completed
    ensures WithoutCompleted(table) == table
  {
    var kept := WithoutCompleted(table);
    forall k | k in table ensures k in kept {
      assert !table[k].completed;
    }
    assert kept.Keys == table.Keys;
  }

  /**
   * Undo after a swipe: deleting a stored task and then inserting the same snapshot (which
   * keeps its non-zero id, so REPLACE stores it under that id) gives back the table.
   */
  lemma DeleteThenStoreRestores(table: map<int, Task>, t: Task)
    requires WellKeyed(table) && t.id in table && table[t.id] == t
    ensures Stored(Deleted(table, t), t) == table
  {
    var back := Stored(Deleted(table, t), t);
    assert back.Keys == table.Keys;
    assert forall j :: j in table ==> back[j] == table[j];
  }

  /** Every mutation keeps the table well keyed. */
  lemma MutationsKeepWellKeyed(table: map<int, Task>, t: Task)
    requires WellKeyed(table)
    ensures t.id != UNASSIGNED_ID ==> WellKeyed(Stored(table, t))
    ensures WellKeyed(Updated(table, t))
    ensures WellKeyed(Deleted(table, t))
    ensures WellKeyed(WithoutCompleted(table))
  {
  }

  /** The task table (the Room database behind `TaskDao`). */
  class TaskTable {
    /** The rows, by primary key. */
    var rows: map<int, Task>
    /** The next generated key: one more than the largest key ever used (`sqlite_sequence`). */
    var nextId: int

    ghost predicate Valid()
      reads this
    {
      WellKeyed(rows) && nextId > UNASSIGNED_ID && forall k :: k in rows ==> k < nextId
    }

    /** A newly created, empty database. */
    constructor ()
      ensures Valid() && rows == map[] && nextId == 1
    {
      rows := map[];
      nextId := 1;
    }

    /**
     * `insert` with REPLACE. A task with id 0 gets the next generated key, which no row
     * has; a task with any other id is stored under it, replacing the row there if any.
     * Returns the key the task was stored under.
     */
    method Insert(task: Task) returns (id: int)
      requires Valid()
      modifies this
      ensures Valid()
      ensures task.IsAssigned() ==> id == task.id
      ensures !task.IsAssigned() ==> id == old(nextId) && id !in old(rows)
      ensures id != UNASSIGNED_ID
      ensures rows == Stored(old(rows), task.(id := id))
      ensures nextId == if id >= old(nextId) then id + 1 else old(nextId)
    {
      id := if task.IsAssigned() then task.id else nextId;
      rows := rows[id := task.(id := id)];
      if id >= nextId {
        nextId := id + 1;
      }
    }

    /** `update`: replaces the whole row with the task's id; no row with that id, no change. */
    method Update(task: Task)
      requires Valid()
      modifies this
      ensures Valid()
      ensures rows == Updated(old(rows), task) && nextId == old(nextId)
    {
      if task.id in rows {
        rows := rows[task.id := task];
      }
    }

    /** `delete`: removes the row with the task's id, whatever its other fields. */
    method Delete(task: Task)
      requires Valid()
      modifies this
      ensures Valid()
      ensures rows == Deleted(old(rows), task) && nextId == old(nextId)
    {
      rows := rows - {task.id};
    }

    /** `deleteCompletedTasks`: one bulk DELETE of the completed rows. */
    method DeleteCompletedTasks()
      requires Valid()
      modifies this
      ensures Valid()
      ensures rows == WithoutCompleted(old(rows)) && nextId == old(nextId)
    {
      rows := map k | k in rows && !rows[k].completed :: rows[k];
    }
  }
}
