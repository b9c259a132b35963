/** The `Task` record stored in `task_table`. */
module TaskData {

  /** The key a task carries before the table has assigned one (Room's auto-generated key). */
  const UNASSIGNED_ID: int := 0

  /**
   * One to-do item. A Kotlin data class: equality is equality of all five fields and
   * `copy(f = v)` is Dafny's update `t.(f := v)`. `created` is milliseconds since the epoch.
   */
  datatype Task = Task(name: string, important: bool, completed: bool, created: int, id: int) {

    /** The table has assigned this task's key. */
    predicate IsAssigned() {
      id != UNASSIGNED_ID
    }
  }

  /**
   * The constructor call `Task(name, ...)` with its default arguments. The default of
   * `created` reads the clock, so the reading is a parameter here.
   */
  function NewTask(name: string, created: int, important: bool := false, completed: bool := false,
                   id: int := UNASSIGNED_ID): Task
  {
    Task(name, important, completed, created, id)
  }

  /** `Task(name)` is neither important nor completed and has no key yet. */
  lemma NewTaskDefaults(name: string, created: int)
    ensures var t := NewTask(name, created);
      && t.name == name && t.created == created
      && !t.important && !t.completed && t.id == UNASSIGNED_ID && !t.IsAssigned()
  {
  }

  /** Two tasks are equal exactly when all five fields are. */
  lemma EqualityIsFieldwise(a: Task, b: Task)
    ensures a == b <==>
      a.name == b.name && a.important == b.important && a.completed == b.completed
      && a.created == b.created && a.id == b.id
  {
  }

  /** `copy(completed = b)` changes the completion flag and nothing else. */
  lemma CopyCompletedKeepsOtherFields(t: Task, b: bool)
    ensures var u := t.(completed := b);
      && u.completed == b
      && u.name == t.name && u.important == t.important && u.created == t.created && u.id == t.id
  {
  }

  /** `copy(name = n, important = i)` keeps the key, the completion flag and the creation time. */
  lemma CopyNameImportanceKeepsOtherFields(t: Task, n: string, i: bool)
    ensures var u := t.(name := n, important := i);
      && u.name == n && u.important == i
      && u.completed == t.completed && u.created == t.created && u.id == t.id
  {
  }
}
