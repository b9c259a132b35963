/**
 * The result codes the add/edit screen hands back to the task list. Their definitions are
 * outside the modelled files; all that matters is that they are two distinct integers.
 */
module UiResults {
  const ADD_TASK_RESULT_OK: int := 1
  const EDIT_TASK_RESULT_OK: int := 2
}
