/**
 * The task-list screen's view-model. It holds the search text (saved state), reads the
 * preferences, turns user actions into table mutations, and sends one-shot events over a
 * channel that the screen receives in order. The live list is `getTasks` applied to the
 * latest search text, preferences and table.
 */
module TasksUi {
  import opened Options
  import opened TaskData
  import opened Preferences
  import opened TaskQuery
  import opened TaskDao
  import opened UiResults

  /** The one-shot events of the task-list screen. */
  datatype TasksEvent =
    | NavigateToAddTaskScreen
    | NavigateToEditTaskScreen(task: Task)
    | ShowUndoDeleteTaskMessage(task: Task)
    | ShowTaskSavedConfirmationMessage(msg: string)
    | NavigateToDeleteAllCompletedScreen

  /** The confirmation a result code of the add/edit screen asks for: none for any other code. */
  function ConfirmationMessage(result: int): (msg: Option<string>)
    ensures result == ADD_TASK_RESULT_OK <==> msg == Some("Task added")
    ensures result == EDIT_TASK_RESULT_OK <==> msg == Some("Task updated")
    ensures msg.None? <==> result != ADD_TASK_RESULT_OK && result != EDIT_TASK_RESULT_OK
  {
    if result == ADD_TASK_RESULT_OK then Some("Task added")
    else if result == EDIT_TASK_RESULT_OK then Some("Task updated")
    else None
  }

  class TasksViewModel {
    const taskDao: TaskTable
    const preferencesManager: PreferencesManager
    /** The `searchQuery` entry of the saved state. */
    var searchQuery: string
    /** `tasksEventChannel`: events sent and not yet received, oldest first. */
    var events: seq<TasksEvent>

    ghost predicate Valid()
      reads this, taskDao
    {
      taskDao.Valid()
    }

    /** The search text is restored from the saved state, empty by default; no event is pending. */
    constructor (taskDao: TaskTable, preferencesManager: PreferencesManager, savedSearchQuery: Option<string>)
      requires taskDao.Valid()
      ensures Valid()
      ensures this.taskDao == taskDao && this.preferencesManager == preferencesManager
      ensures searchQuery == savedSearchQuery.GetOr("") && events == []
    {
      this.taskDao := taskDao;
      this.preferencesManager := preferencesManager;
      searchQuery := savedSearchQuery.GetOr("");
      events := [];
    }

    /**
     * `tasks`: the list on screen, the result of `getTasks` for the latest search text,
     * preferences and table. It lists exactly the matching tasks, in the preferred order.
     */
    function Tasks(): (r: seq<Task>)
      reads this, taskDao, preferencesManager
      ensures Sorted(preferencesManager.sortOrder, r)
      ensures forall t :: t in r <==>
        t in taskDao.rows.Values && Selected(t, searchQuery, preferencesManager.hideCompleted)
    {
      GetTasks(taskDao.rows, searchQuery, preferencesManager.sortOrder, preferencesManager.hideCompleted)
    }

    /** The search box writes the new text into `searchQuery`. */
    method SetSearchQuery(query: string)
      modifies this
      ensures searchQuery == query && events == old(events)
      ensures unchanged(taskDao) && unchanged(preferencesManager)
    {
      searchQuery := query;
    }

    /** `onSortOrderSelected`: rewrites the sort order only; no table change, no event. */
    method OnSortOrderSelected(sortOrder: SortOrder)
      modifies preferencesManager
      ensures preferencesManager.sortOrder == sortOrder
      ensures preferencesManager.hideCompleted == old(preferencesManager.hideCompleted)
      ensures unchanged(this) && unchanged(taskDao)
    {
      preferencesManager.UpdateSortOrder(sortOrder);
    }

    /**
     * `onHideCompletedClick`: rewrites the hide-completed flag only; no table change, no
     * event. Once completed tasks are hidden, none is on screen.
     */
    method OnHideCompletedClick(hideCompleted: bool)
      modifies preferencesManager
      ensures preferencesManager.hideCompleted == hideCompleted
      ensures preferencesManager.sortOrder == old(preferencesManager.sortOrder)
      ensures unchanged(this) && unchanged(taskDao)
      ensures hideCompleted ==> forall t :: t in Tasks() ==> !t.completed
    {
      preferencesManager.UpdateHideCompleted(hideCompleted);
    }

    /** `onTaskSelected`: sends exactly one event, to open the edit screen for the task. */
    method OnTaskSelected(task: Task)
      modifies this
      ensures events == old(events) + [NavigateToEditTaskScreen(task)]
      ensures searchQuery == old(searchQuery) && unchanged(taskDao) && unchanged(preferencesManager)
    {
      events := events + [NavigateToEditTaskScreen(task)];
    }

    /** `onTaskCheckedChanged`: one update, with the task's completion flag set to `isChecked`; no event. */
    method OnTaskCheckedChanged(task: Task, isChecked: bool)
      requires Valid()
      modifies taskDao
      ensures Valid()
      ensures taskDao.rows == Updated(old(taskDao.rows), task.(completed := isChecked))
      ensures taskDao.nextId == old(taskDao.nextId)
      ensures unchanged(this) && unchanged(preferencesManager)
    {
      taskDao.Update(task.(completed := isChecked));
    }

    /** `onTaskSwiped`: deletes the task, then sends one event offering to undo, with the same snapshot. */
    method OnTaskSwiped(task: Task)
      requires Valid()
      modifies this, taskDao
      ensures Valid()
      ensures taskDao.rows == Deleted(old(taskDao.rows), task) && taskDao.nextId == old(taskDao.nextId)
      ensures events == old(events) + [ShowUndoDeleteTaskMessage(task)]
      ensures searchQuery == old(searchQuery) && unchanged(preferencesManager)
    {
      taskDao.Delete(task);
      events := events + [ShowUndoDeleteTaskMessage(task)];
    }

    /** `onUndoDeleteClick`: inserts the snapshot unchanged; a snapshot with an id is stored back under it. */
    method OnUndoDeleteClick(task: Task)
      requires Valid()
      modifies taskDao
      ensures Valid()
      ensures task.IsAssigned() ==> taskDao.rows == Stored(old(taskDao.rows), task)
      ensures !task.IsAssigned() ==>
        taskDao.rows == Stored(old(taskDao.rows), task.(id := old(taskDao.nextId)))
      ensures task.IsAssigned() ==>
        taskDao.nextId == if task.id >= old(taskDao.nextId) then task.id + 1 else old(taskDao.nextId)
      ensures !task.IsAssigned() ==> taskDao.nextId == old(taskDao.nextId) + 1
      ensures unchanged(this) && unchanged(preferencesManager)
    {
      var _ := taskDao.Insert(task);
    }

    /** `onAddNewTaskClick`: sends exactly one event, to open the add screen. */
    method OnAddNewTaskClick()
      modifies this
      ensures events == old(events) + [NavigateToAddTaskScreen]
      ensures searchQuery == old(searchQuery) && unchanged(taskDao) && unchanged(preferencesManager)
    {
      events := events + [NavigateToAddTaskScreen];
    }

    /**
     * `onAddEditResult`: "Task added" for the add code, "Task updated" for the edit code,
     * and for any other code nothing at all.
     */
    method OnAddEditResult(result: int)
      modifies this
      ensures events == old(events) + match ConfirmationMessage(result)
        case Some(msg) => [ShowTaskSavedConfirmationMessage(msg)]
        case None => []
      ensures searchQuery == old(searchQuery) && unchanged(taskDao) && unchanged(preferencesManager)
    {
      match ConfirmationMessage(result)
      case Some(msg) =>
        events := events + [ShowTaskSavedConfirmationMessage(msg)];
      case None =>
    }

    /** `onDeleteAllCompletedClick`: sends exactly one event, to open the confirmation dialog. */
    method OnDeleteAllCompletedClick()
      modifies this
      ensures events == old(events) + [NavigateToDeleteAllCompletedScreen]
      ensures searchQuery == old(searchQuery) && unchanged(taskDao) && unchanged(preferencesManager)
    {
      events := events + [NavigateToDeleteAllCompletedScreen];
    }

    /** The screen receives the oldest pending event, if any; each event is received once. */
    method ReceiveEvent() returns (event: Option<TasksEvent>)
      modifies this
      ensures old(events) == [] ==> event == None && events == []
      ensures old(events) != [] ==> event == Some(old(events)[0]) && events == old(events)[1..]
      ensures searchQuery == old(searchQuery) && unchanged(taskDao) && unchanged(preferencesManager)
    {
      if events == [] {
        event := None;
      } else {
        event := Some(events[0]);
        events := events[1..];
      }
    }
  }

  /** The screen's collector: receives every pending event, in the order they were sent. */
  method ReceiveAll(vm: TasksViewModel) returns (received: seq<TasksEvent>)
    modifies vm
    ensures received == old(vm.events) && vm.events == []
    ensures vm.searchQuery == old(vm.searchQuery)
  {
    received := [];
    while vm.events != []
      invariant received + vm.events == old(vm.events)
      invariant vm.searchQuery == old(vm.searchQuery)
      decreases |vm.events|
    {
      var event := vm.ReceiveEvent();
      received := received + [event.value];
    }
  }

  /**
   * A swipe and then the snackbar's undo on the task it carried: the table is as before
   * (the snapshot keeps its id and REPLACE stores it there) and the undo offer was received.
   */
  method SwipeThenUndo(vm: TasksViewModel, task: Task)
    requires vm.Valid() && vm.events == []
    requires task.id in vm.taskDao.rows && vm.taskDao.rows[task.id] == task
    modifies vm, vm.taskDao
    ensures vm.Valid()
    ensures vm.taskDao.rows == old(vm.taskDao.rows) && vm.taskDao.nextId == old(vm.taskDao.nextId)
    ensures vm.events == [] && vm.searchQuery == old(vm.searchQuery)
  {
    vm.OnTaskSwiped(task);
    var event := vm.ReceiveEvent();
    assert event == Some(ShowUndoDeleteTaskMessage(task));
    vm.OnUndoDeleteClick(event.value.task);
    DeleteThenStoreRestores(old(vm.taskDao.rows), task);
  }
}
