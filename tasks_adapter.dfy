/**
 * The list adapter's `DiffCallback`: two rows show the same item when their ids agree and
 * need no rebinding when the tasks are equal.
 */
module TasksAdapter {
  import opened TaskData

  /** `areItemsTheSame`: the same item, compared by id. */
  predicate AreItemsTheSame(oldItem: Task, newItem: Task) {
    oldItem.id == newItem.id
  }

  /** `areContentsTheSame`: data-class equality, i.e. all five fields equal. */
  function AreContentsTheSame(oldItem: Task, newItem: Task): (same: bool)
    ensures same <==>
      && oldItem.name == newItem.name && oldItem.important == newItem.important
      && oldItem.completed == newItem.completed && oldItem.created == newItem.created
      && oldItem.id == newItem.id
    ensures same ==> AreItemsTheSame(oldItem, newItem)
  {
    oldItem == newItem
  }

  /** Both relations are reflexive and symmetric. */
  lemma DiffRelationsReflexiveSymmetric(a: Task, b: Task)
    ensures AreItemsTheSame(a, a) && AreContentsTheSame(a, a)
    ensures AreItemsTheSame(a, b) <==> AreItemsTheSame(b, a)
    ensures AreContentsTheSame(a, b) <==> AreContentsTheSame(b, a)
  {
  }

  /**
   * Ticking or unticking a task (`copy(completed = ...)`) keeps the item and changes its
   * contents, so the list rebinds that one row.
   */
  lemma ToggleCompletedRebindsSameItem(t: Task)
    ensures var u := t.(completed := !t.completed);
      AreItemsTheSame(t, u) && !AreContentsTheSame(t, u)
  {
  }
}
