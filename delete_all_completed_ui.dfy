/** The confirmation dialog for deleting every completed task. */
module DeleteAllCompletedUi {
  import opened TaskDao

  class DeleteAllCompletedViewModel {
    const taskDao: TaskTable

    constructor (taskDao: TaskTable)
      ensures this.taskDao == taskDao
    {
      this.taskDao := taskDao;
    }

    /**
     * `onConfirmClick`: deletes the completed tasks. Afterwards no completed task remains and
     * every task that was not completed is still there, unchanged.
     */
    method OnConfirmClick()
      requires taskDao.Valid()
      modifies taskDao
      ensures taskDao.Valid()
      ensures taskDao.rows == WithoutCompleted(old(taskDao.rows)) && taskDao.nextId == old(taskDao.nextId)
      ensures forall k :: k in taskDao.rows ==> !taskDao.rows[k].completed
      ensures forall k :: k in old(taskDao.rows) && !old(taskDao.rows)[k].completed ==>
        k in taskDao.rows && taskDao.rows[k] == old(taskDao.rows)[k]
    {
      taskDao.DeleteCompletedTasks();
    }
  }

  /** Confirming twice leaves the same table as confirming once. */
  method ConfirmTwice(vm: DeleteAllCompletedViewModel)
    requires vm.taskDao.Valid()
    modifies vm.taskDao
    ensures vm.taskDao.Valid()
    ensures vm.taskDao.rows == WithoutCompleted(old(vm.taskDao.rows))
    ensures vm.taskDao.nextId == old(vm.taskDao.nextId)
  {
    vm.OnConfirmClick();
    vm.OnConfirmClick();
    WithoutCompletedIdempotent(old(vm.taskDao.rows));
  }
}
