/**
 * The user's list preferences: the sort order and whether completed tasks are hidden.
 * The store behind them (a DataStore in the app) is reduced to two fields and two setters.
 */
module Preferences {

  datatype SortOrder = ByName | ByDate

  class PreferencesManager {
    var sortOrder: SortOrder
    var hideCompleted: bool

    /** Nothing persisted yet: sort by date, show completed tasks. */
    constructor ()
      ensures sortOrder == ByDate && !hideCompleted
    {
      sortOrder := ByDate;
      hideCompleted := false;
    }

    /** Rewrites the sort order and leaves the other preference as it was. */
    method UpdateSortOrder(order: SortOrder)
      modifies this
      ensures sortOrder == order && hideCompleted == old(hideCompleted)
    {
      sortOrder := order;
    }

    /** Rewrites the hide-completed flag and leaves the other preference as it was. */
    method UpdateHideCompleted(value: bool)
      modifies this
      ensures hideCompleted == value && sortOrder == old(sortOrder)
    {
      hideCompleted := value;
    }
  }
}
