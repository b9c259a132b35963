/**
 * The add/edit screen's view-model. Its draft (name and importance) is seeded from the
 * saved state, else from the task being edited, else from the defaults, and every change
 * is written back into the saved state so that a recreated view-model finds the same draft.
 * Saving validates the name, then performs one update (edit) or one insert (add) and sends
 * one navigate-back event with a result code.
 */
module AddEditTaskUi {
  import opened Options
  import opened Strings
  import opened TaskData
  import opened TaskDao
  import opened UiResults

  /** The one-shot events of the add/edit screen. */
  datatype AddEditTaskEvent =
    | ShowInvalidInputMessage(msg: string)
    | NavigateBackWithResult(result: int)

  const INVALID_NAME_MESSAGE: string := "Name cannot be empty"

  /** The entries of the screen's saved-state handle: the navigation argument and the draft. */
  datatype SavedState = SavedState(task: Option<Task>, taskName: Option<string>, taskImportance: Option<bool>)

  /** `state.get("taskName") ?: task?.name ?: ""` */
  function InitialName(state: SavedState): (name: string)
    ensures state.taskName.Some? ==> name == state.taskName.value
    ensures state.taskName.None? && state.task.Some? ==> name == state.task.value.name
    ensures state.taskName.None? && state.task.None? ==> name == ""
  {
    state.taskName.GetOr(if state.task.Some? then state.task.value.name else "")
  }

  /** `state.get("taskImportance") ?: task?.important ?: false` */
  function InitialImportance(state: SavedState): (important: bool)
    ensures state.taskImportance.Some? ==> important == state.taskImportance.value
    ensures state.taskImportance.None? && state.task.Some? ==> important == state.task.value.important
    ensures state.taskImportance.None? && state.task.None? ==> !important
  {
    state.taskImportance.GetOr(state.task.Some? && state.task.value.important)
  }

  /** A saved draft value wins over the edited task on recreation. */
  lemma SavedDraftReadBack(state: SavedState, name: string, important: bool)
    ensures InitialName(state.(taskName := Some(name))) == name
    ensures InitialImportance(state.(taskImportance := Some(important))) == important
  {
  }

  class AddEditTaskViewModel {
    const taskDao: TaskTable
    /** The task being edited, absent in create mode. */
    const task: Option<Task>
    var state: SavedState
    var taskName: string
    var taskImportance: bool
    /** `addEditTaskEventChannel`: events sent and not yet received, oldest first. */
    var events: seq<AddEditTaskEvent>

    /** The draft is what a view-model recreated from the saved state would start with. */
    ghost predicate Valid()
      reads this, taskDao
    {
      && taskDao.Valid()
      && state.task == task
      && taskName == InitialName(state)
      && taskImportance == InitialImportance(state)
    }

    constructor (taskDao: TaskTable, state: SavedState)
      requires taskDao.Valid()
      ensures Valid()
      ensures this.taskDao == taskDao && this.state == state && task == state.task
      ensures taskName == InitialName(state) && taskImportance == InitialImportance(state)
      ensures events == []
    {
      this.taskDao := taskDao;
      this.state := state;
      task := state.task;
      taskName := InitialName(state);
      taskImportance := InitialImportance(state);
      events := [];
    }

    /** The `taskName` setter: the field and the saved state both take the value. */
    method SetTaskName(value: string)
      requires Valid()
      modifies this
      ensures Valid()
      ensures taskName == value && state == old(state).(taskName := Some(value))
      ensures taskImportance == old(taskImportance) && events == old(events)
    {
      taskName := value;
      state := state.(taskName := Some(value));
    }

    /** The `taskImportance` setter: the field and the saved state both take the value. */
    method SetTaskImportance(value: bool)
      requires Valid()
      modifies this
      ensures Valid()
      ensures taskImportance == value && state == old(state).(taskImportance := Some(value))
      ensures taskName == old(taskName) && events == old(events)
    {
      taskImportance := value;
      state := state.(taskImportance := Some(value));
    }

    /**
     * `onSaveClick`, with `now` the clock reading a new task's `created` takes.
     * A blank name: one error event and no table call. Edit mode: one update with the task's
     * name and importance replaced (id, completion and creation time kept), then the edit
     * result. Create mode: one insert of a new task with the draft's name and importance,
     * not completed and with id 0, so it gets a fresh key, then the add result.
     */
    method OnSaveClick(now: int)
      requires Valid()
      modifies this, taskDao
      ensures Valid()
      ensures taskName == old(taskName) && taskImportance == old(taskImportance) && state == old(state)
      ensures IsBlank(taskName) ==>
        && events == old(events) + [ShowInvalidInputMessage(INVALID_NAME_MESSAGE)]
        && taskDao.rows == old(taskDao.rows) && taskDao.nextId == old(taskDao.nextId)
      ensures !IsBlank(taskName) && task.Some? ==>
        && taskDao.rows == Updated(old(taskDao.rows), task.value.(name := taskName, important := taskImportance))
        && taskDao.nextId == old(taskDao.nextId)
        && events == old(events) + [NavigateBackWithResult(EDIT_TASK_RESULT_OK)]
      ensures !IsBlank(taskName) && task.None? ==>
        && old(taskDao.nextId) !in old(taskDao.rows)
        && taskDao.rows == Stored(old(taskDao.rows),
             NewTask(taskName, now, important := taskImportance, id := old(taskDao.nextId)))
        && taskDao.nextId == old(taskDao.nextId) + 1
        && events == old(events) + [NavigateBackWithResult(ADD_TASK_RESULT_OK)]
    {
      if IsBlank(taskName) {
        events := events + [ShowInvalidInputMessage(INVALID_NAME_MESSAGE)];
        return;
      }
      match task
      case Some(t) =>
        taskDao.Update(t.(name := taskName, important := taskImportance));
        events := events + [NavigateBackWithResult(EDIT_TASK_RESULT_OK)];
      case None =>
        var _ := taskDao.Insert(NewTask(taskName, now, important := taskImportance));
        events := events + [NavigateBackWithResult(ADD_TASK_RESULT_OK)];
    }

    /** The screen receives the oldest pending event, if any; each event is received once. */
    method ReceiveEvent() returns (event: Option<AddEditTaskEvent>)
      modifies this
      ensures old(events) == [] ==> event == None && events == []
      ensures old(events) != [] ==> event == Some(old(events)[0]) && events == old(events)[1..]
      ensures taskName == old(taskName) && taskImportance == old(taskImportance) && state == old(state)
    {
      if events == [] {
        event := None;
      } else {
        event := Some(events[0]);
        events := events[1..];
      }
    }
  }

  /** A view-model recreated from another's saved state starts with the same draft. */
  method Recreate(vm: AddEditTaskViewModel) returns (again: AddEditTaskViewModel)
    requires vm.Valid()
    ensures again.Valid() && again.taskDao == vm.taskDao && again.task == vm.task
    ensures again.taskName == vm.taskName && again.taskImportance == vm.taskImportance
  {
    again := new AddEditTaskViewModel(vm.taskDao, vm.state);
  }
}
