# MVVM to-do app: the task table and its view-models, in Dafny

This project models the parts of the Android to-do app that follow exact rules:

- the task table behind `TaskDao`, with its list query;
- the `Task` record;
- the task-list, add/edit and delete-all-completed view-models;
- the list adapter's diff callback;
- the eight sample tasks the database is created with.

Each part is written in the form its source takes.

- **Queries and the record are functions.** `Task` is a datatype: Kotlin's `copy(f = v)` is Dafny's `t.(f := v)`, and data-class equality is datatype equality. The two list queries of `TaskDao` and `getTasks` are functions over the table. Each is a WHERE filter (`TaskQuery.Select`) followed by an ORDER BY (`TaskQuery.SortTasks`). The proved contract is that the result is exactly the matching rows, each once, ordered by `important DESC` and then by name or by creation time.
- **The table is a class.** `TaskDao.TaskTable` holds the rows as a `map<int, Task>` keyed by id, plus the next generated key. Room declares `@PrimaryKey(autoGenerate = true)` as SQLite AUTOINCREMENT, so a generated key is one more than the largest key used so far. `insert` (with REPLACE), `update`, `delete` and `deleteCompletedTasks` are methods. Each is tied to a function on the old rows (`Stored`, `Updated`, `Deleted`, `WithoutCompleted`), and those functions carry the lemmas.
- **View-models are classes too.** Their state is the search text, the preferences, the add/edit draft and its saved-state entries, and the event channel. The channel is a `seq` that every `send` appends to and that the screen consumes from the front. The list on screen is `TasksUi.TasksViewModel.Tasks()`: `getTasks` applied to the current search text, preferences and table.
- **The database seed is a method.** `TaskDatabase.OnCreate` performs the eight inserts in order. Two lemmas describe what the list shows on the resulting table.

Inputs the app reads from the device are parameters of the model:

- the clock (`System.currentTimeMillis()`, the default of `created`);
- the saved-state handle's initial entries.

Undo keeps the id:

- The swiped task is re-inserted exactly as it was (`TasksVIewModel.kt:87-89`).
- Its id is non-zero, so the REPLACE insert stores it back under that same id (`TaskDao.kt:25-27`).
- `TasksUi.SwipeThenUndo` proves that a swipe followed by undo leaves the rows and the key counter as they were.

## Model

Source paths are relative to the repository root.

| member | source | states |
|---|---|---|
| TaskData.NewTask | app/src/main/java/com/codinginflow/mvvmtodo/data/Task.kt:15-21 | the `Task(...)` constructor: omitted arguments default to not important, not completed and id 0; the clock reading is a parameter |
| TaskData.NewTaskDefaults | app/src/main/java/com/codinginflow/mvvmtodo/data/Task.kt:15-21 | `Task(name)` is not important, not completed and has the unassigned id 0 |
| TaskData.EqualityIsFieldwise | app/src/main/java/com/codinginflow/mvvmtodo/data/Task.kt:15-23 | two tasks are equal iff all five fields are equal |
| TaskData.CopyCompletedKeepsOtherFields | app/src/main/java/com/codinginflow/mvvmtodo/ui/tasks/TasksVIewModel.kt:76 | `copy(completed = b)` sets the flag and keeps name, importance, creation time and id |
| TaskData.CopyNameImportanceKeepsOtherFields | app/src/main/java/com/codinginflow/mvvmtodo/ui/addedittask/AddEditTaskViewModel.kt:46 | `copy(name = n, important = i)` keeps id, completion and creation time |
| Strings.LexLe | app/src/main/java/com/codinginflow/mvvmtodo/data/TaskDao.kt:18 | `ORDER BY name`: character by character in code point order (SQLite BINARY collation), a proper prefix first |
| Strings.IsWhitespace | app/src/main/java/com/codinginflow/mvvmtodo/ui/addedittask/AddEditTaskViewModel.kt:40 | the characters Kotlin's `Char.isWhitespace` accepts on the JVM |
| Strings.IsBlank | app/src/main/java/com/codinginflow/mvvmtodo/ui/addedittask/AddEditTaskViewModel.kt:40 | `isBlank`: every character of the name is whitespace, so the empty name is blank |
| Strings.Contains | app/src/main/java/com/codinginflow/mvvmtodo/data/TaskDao.kt:18 | `name LIKE '%' || q || '%'` as a substring test: true iff `q` occurs in the name at some position |
| Strings.LexLeReflexive | app/src/main/java/com/codinginflow/mvvmtodo/data/TaskDao.kt:18 | the name order of `ORDER BY name` is reflexive |
| Strings.LexLeTotal | app/src/main/java/com/codinginflow/mvvmtodo/data/TaskDao.kt:18 | any two names are comparable |
| Strings.LexLeTransitive | app/src/main/java/com/codinginflow/mvvmtodo/data/TaskDao.kt:18 | the name order is transitive |
| Strings.LexLeAntisymmetric | app/src/main/java/com/codinginflow/mvvmtodo/data/TaskDao.kt:18 | names ordered both ways are equal |
| Strings.BlankIffNoVisibleChar | app/src/main/java/com/codinginflow/mvvmtodo/ui/addedittask/AddEditTaskViewModel.kt:40 | `isBlank` holds iff the name has no non-whitespace character (the empty name included) |
| TaskQuery.Selected | app/src/main/java/com/codinginflow/mvvmtodo/data/TaskDao.kt:18 | the WHERE clause as written: `(completed != hideCompleted OR completed = 0) AND name LIKE %query%` |
| TaskQuery.Precedes | app/src/main/java/com/codinginflow/mvvmtodo/data/TaskDao.kt:18-22 | `ORDER BY important DESC, key`: an important task first, else equal importance and the name (BY_NAME) or creation time (BY_DATE) not greater |
| TaskQuery.SelectedIff | app/src/main/java/com/codinginflow/mvvmtodo/data/TaskDao.kt:18 | the WHERE clause as written, `completed != hide OR completed = 0`, keeps a task iff (`!hideCompleted` or not completed) and the name contains the query |
| TaskQuery.PrecedesTotal | app/src/main/java/com/codinginflow/mvvmtodo/data/TaskDao.kt:18-22 | `ORDER BY important DESC, key` relates any two tasks one way or the other |
| TaskQuery.PrecedesTransitive | app/src/main/java/com/codinginflow/mvvmtodo/data/TaskDao.kt:18-22 | that order is transitive |
| TaskQuery.Select | app/src/main/java/com/codinginflow/mvvmtodo/data/TaskDao.kt:18-22 | the WHERE filter returns a sub-multiset of the rows holding exactly the rows that pass the clause |
| TaskQuery.InsertInOrder | app/src/main/java/com/codinginflow/mvvmtodo/data/TaskDao.kt:18-22 | inserting into a sorted list gives a sorted list with one more copy of the task |
| TaskQuery.SortTasks | app/src/main/java/com/codinginflow/mvvmtodo/data/TaskDao.kt:18-22 | the ORDER BY returns a sorted permutation of its input |
| TaskQuery.MinKey | app/src/main/java/com/codinginflow/mvvmtodo/data/TaskDao.kt:18 | the smallest key of a non-empty key set, used to scan the table in key order |
| TaskQuery.Rows | app/src/main/java/com/codinginflow/mvvmtodo/data/TaskDao.kt:18 | the table scan lists exactly the stored tasks |
| TaskQuery.RowsAtMostOnce | app/src/main/java/com/codinginflow/mvvmtodo/data/TaskDao.kt:18 | on a well-keyed table the scan lists each task at most once |
| TaskQuery.GetTasksSortedByName | app/src/main/java/com/codinginflow/mvvmtodo/data/TaskDao.kt:18-19 | the BY_NAME query is sorted by `important DESC, name` and is a permutation of the selected rows |
| TaskQuery.GetTasksSortedByDateCreated | app/src/main/java/com/codinginflow/mvvmtodo/data/TaskDao.kt:22-23 | the BY_DATE query is sorted by `important DESC, created` and is a permutation of the selected rows |
| TaskQuery.GetTasks | app/src/main/java/com/codinginflow/mvvmtodo/data/TaskDao.kt:10-15 | the result is sorted for the chosen order and holds a task iff it is stored and passes the WHERE clause |
| TaskQuery.GetTasksDispatch | app/src/main/java/com/codinginflow/mvvmtodo/data/TaskDao.kt:12-14 | BY_DATE dispatches to the created-ordered query, BY_NAME to the name-ordered one |
| TaskQuery.SortOrderDoesNotChangeSelection | app/src/main/java/com/codinginflow/mvvmtodo/data/TaskDao.kt:18-22 | both sort orders list the same multiset of tasks: the filter is identical |
| TaskQuery.ShowCompletedListsEveryMatch | app/src/main/java/com/codinginflow/mvvmtodo/data/TaskDao.kt:18 | with completed tasks shown, every stored task whose name contains the query is listed, completed or not |
| TaskQuery.HideCompletedListsNoCompleted | app/src/main/java/com/codinginflow/mvvmtodo/data/TaskDao.kt:18 | with completed tasks hidden, no completed task is listed |
| TaskQuery.ImportantFirst | app/src/main/java/com/codinginflow/mvvmtodo/data/TaskDao.kt:18-22 | whatever the order, every important task comes before every task that is not |
| TaskQuery.SecondaryKeyAscends | app/src/main/java/com/codinginflow/mvvmtodo/data/TaskDao.kt:18-22 | among equally important tasks, names ascend under BY_NAME and creation times under BY_DATE |
| TaskQuery.DistinctIdsCount | app/src/main/java/com/codinginflow/mvvmtodo/data/TaskDao.kt:18 | a list with pairwise distinct ids has as many ids as elements |
| TaskQuery.GetTasksOncePerMatch | app/src/main/java/com/codinginflow/mvvmtodo/data/TaskDao.kt:18-23 | on a well-keyed table the ids listed are exactly the ids of the matching rows, each once, so the length is the number of matches |
| TaskDao.Stored | app/src/main/java/com/codinginflow/mvvmtodo/data/TaskDao.kt:25-27 | a REPLACE write adds the task's key, stores the task there and keeps every other row |
| TaskDao.Updated | app/src/main/java/com/codinginflow/mvvmtodo/data/TaskDao.kt:29-31 | `update` keeps the key set, replaces the row with the task's id if there is one and changes nothing otherwise |
| TaskDao.Deleted | app/src/main/java/com/codinginflow/mvvmtodo/data/TaskDao.kt:33-35 | `delete` removes exactly the task's key and keeps every other row |
| TaskDao.WithoutCompleted | app/src/main/java/com/codinginflow/mvvmtodo/data/TaskDao.kt:37-39 | `deleteCompletedTasks` keeps a key iff its task is not completed, with the row unchanged |
| TaskDao.NoCompletedRemain | app/src/main/java/com/codinginflow/mvvmtodo/data/TaskDao.kt:38 | after deleting the completed tasks none remains |
| TaskDao.WithoutCompletedIdempotent | app/src/main/java/com/codinginflow/mvvmtodo/data/TaskDao.kt:38 | deleting the completed tasks twice equals deleting them once |
| TaskDao.WithoutCompletedKeepsActiveTable | app/src/main/java/com/codinginflow/mvvmtodo/data/TaskDao.kt:38 | a table without completed tasks is left unchanged |
| TaskDao.DeleteThenStoreRestores | app/src/main/java/com/codinginflow/mvvmtodo/data/TaskDao.kt:25-35 | deleting a stored task and inserting the same snapshot gives back the table |
| TaskDao.MutationsKeepWellKeyed | app/src/main/java/com/codinginflow/mvvmtodo/data/TaskDao.kt:25-39 | every mutation keeps each row under its own non-zero id |
| TaskDao.TaskTable.constructor | app/src/main/java/com/codinginflow/mvvmtodo/data/TaskDatabase.kt:13-17 | a new database is empty and its first generated key is 1 |
| TaskDao.TaskTable.Insert | app/src/main/java/com/codinginflow/mvvmtodo/data/TaskDao.kt:25-27 | id 0 gets the next generated key, which no row has; a non-zero id is stored under itself, replacing any row there; the table becomes `Stored` of the old one |
| TaskDao.TaskTable.Update | app/src/main/java/com/codinginflow/mvvmtodo/data/TaskDao.kt:29-31 | the table becomes `Updated` of the old one; the key generator is untouched |
| TaskDao.TaskTable.Delete | app/src/main/java/com/codinginflow/mvvmtodo/data/TaskDao.kt:33-35 | the table becomes `Deleted` of the old one |
| TaskDao.TaskTable.DeleteCompletedTasks | app/src/main/java/com/codinginflow/mvvmtodo/data/TaskDao.kt:37-39 | the table becomes `WithoutCompleted` of the old one |
| Preferences.PreferencesManager.constructor | app/src/main/java/com/codinginflow/mvvmtodo/ui/tasks/TasksVIewModel.kt:31 | with nothing stored the preferences are sort by date and show completed tasks |
| Preferences.PreferencesManager.UpdateSortOrder | app/src/main/java/com/codinginflow/mvvmtodo/ui/tasks/TasksVIewModel.kt:58 | sets the sort order and keeps the hide flag |
| Preferences.PreferencesManager.UpdateHideCompleted | app/src/main/java/com/codinginflow/mvvmtodo/ui/tasks/TasksVIewModel.kt:64 | sets the hide flag and keeps the sort order |
| TasksAdapter.AreItemsTheSame | app/src/main/java/com/codinginflow/mvvmtodo/ui/tasks/TasksAdapter.kt:71-72 | `areItemsTheSame`: the two tasks have the same id |
| TasksAdapter.AreContentsTheSame | app/src/main/java/com/codinginflow/mvvmtodo/ui/tasks/TasksAdapter.kt:74-75 | true iff all five fields agree, and it implies `areItemsTheSame` |
| TasksAdapter.DiffRelationsReflexiveSymmetric | app/src/main/java/com/codinginflow/mvvmtodo/ui/tasks/TasksAdapter.kt:70-76 | both comparisons are reflexive and symmetric |
| TasksAdapter.ToggleCompletedRebindsSameItem | app/src/main/java/com/codinginflow/mvvmtodo/ui/tasks/TasksAdapter.kt:70-76 | ticking a task keeps the same item (same id) with different contents |
| TasksUi.ConfirmationMessage | app/src/main/java/com/codinginflow/mvvmtodo/ui/tasks/TasksVIewModel.kt:97-101 | the add code gives "Task added", the edit code "Task updated", every other code nothing (each an iff) |
| TasksUi.TasksViewModel.constructor | app/src/main/java/com/codinginflow/mvvmtodo/ui/tasks/TasksVIewModel.kt:28 | the search text is the saved one, else empty; no event is pending |
| TasksUi.TasksViewModel.Tasks | app/src/main/java/com/codinginflow/mvvmtodo/ui/tasks/TasksVIewModel.kt:43-53 | the list on screen is sorted by the current sort order and holds exactly the stored tasks that pass the filter for the current search text and hide flag |
| TasksUi.TasksViewModel.SetSearchQuery | app/src/main/java/com/codinginflow/mvvmtodo/ui/tasks/TasksVIewModel.kt:28 | the search text takes the new value; table, preferences and events are untouched |
| TasksUi.TasksViewModel.OnSortOrderSelected | app/src/main/java/com/codinginflow/mvvmtodo/ui/tasks/TasksVIewModel.kt:57-59 | only the sort order changes; table, search text and events are untouched |
| TasksUi.TasksViewModel.OnHideCompletedClick | app/src/main/java/com/codinginflow/mvvmtodo/ui/tasks/TasksVIewModel.kt:63-65 | only the hide flag changes; once set, no completed task is on screen |
| TasksUi.TasksViewModel.OnTaskSelected | app/src/main/java/com/codinginflow/mvvmtodo/ui/tasks/TasksVIewModel.kt:69-71 | exactly one `NavigateToEditTaskScreen(task)` is appended; the table is untouched |
| TasksUi.TasksViewModel.OnTaskCheckedChanged | app/src/main/java/com/codinginflow/mvvmtodo/ui/tasks/TasksVIewModel.kt:75-77 | one update with the task's completion flag set to `isChecked`; no event |
| TasksUi.TasksViewModel.OnTaskSwiped | app/src/main/java/com/codinginflow/mvvmtodo/ui/tasks/TasksVIewModel.kt:81-84 | the task's row is deleted, then exactly one undo offer carrying the same snapshot is appended |
| TasksUi.TasksViewModel.OnUndoDeleteClick | app/src/main/java/com/codinginflow/mvvmtodo/ui/tasks/TasksVIewModel.kt:87-89 | the snapshot is inserted unchanged: one with an id is stored back under that id |
| TasksUi.TasksViewModel.OnAddNewTaskClick | app/src/main/java/com/codinginflow/mvvmtodo/ui/tasks/TasksVIewModel.kt:92-94 | exactly one `NavigateToAddTaskScreen` is appended; the table is untouched |
| TasksUi.TasksViewModel.OnAddEditResult | app/src/main/java/com/codinginflow/mvvmtodo/ui/tasks/TasksVIewModel.kt:97-106 | appends the confirmation `ConfirmationMessage` gives, or nothing for any other code |
| TasksUi.TasksViewModel.OnDeleteAllCompletedClick | app/src/main/java/com/codinginflow/mvvmtodo/ui/tasks/TasksVIewModel.kt:109-111 | exactly one `NavigateToDeleteAllCompletedScreen` is appended; the table is untouched |
| TasksUi.TasksViewModel.ReceiveEvent | app/src/main/java/com/codinginflow/mvvmtodo/ui/tasks/TasksVIewModel.kt:34-38 | the screen receives the oldest pending event and it leaves the channel |
| TasksUi.ReceiveAll | app/src/main/java/com/codinginflow/mvvmtodo/ui/tasks/TasksVIewModel.kt:34-38 | collecting the channel yields the events in the order sent, each once, and empties it |
| TasksUi.SwipeThenUndo | app/src/main/java/com/codinginflow/mvvmtodo/ui/tasks/TasksVIewModel.kt:81-89 | swiping a stored task and undoing with the snapshot the event carried restores the rows and the key counter, keeps the search text and leaves no event pending |
| AddEditTaskUi.InitialName | app/src/main/java/com/codinginflow/mvvmtodo/ui/addedittask/AddEditTaskViewModel.kt:24 | the draft name is the saved one, else the edited task's name, else `""` |
| AddEditTaskUi.InitialImportance | app/src/main/java/com/codinginflow/mvvmtodo/ui/addedittask/AddEditTaskViewModel.kt:30 | the draft importance is the saved one, else the edited task's, else `false` |
| AddEditTaskUi.SavedDraftReadBack | app/src/main/java/com/codinginflow/mvvmtodo/ui/addedittask/AddEditTaskViewModel.kt:24-34 | a value written to the saved state is the one a new view-model starts with |
| AddEditTaskUi.AddEditTaskViewModel.constructor | app/src/main/java/com/codinginflow/mvvmtodo/ui/addedittask/AddEditTaskViewModel.kt:21-37 | the edited task comes from the saved state and the draft is seeded from it; no event is pending |
| AddEditTaskUi.AddEditTaskViewModel.SetTaskName | app/src/main/java/com/codinginflow/mvvmtodo/ui/addedittask/AddEditTaskViewModel.kt:24-28 | the name and the saved-state entry both take the value |
| AddEditTaskUi.AddEditTaskViewModel.SetTaskImportance | app/src/main/java/com/codinginflow/mvvmtodo/ui/addedittask/AddEditTaskViewModel.kt:30-34 | the importance and the saved-state entry both take the value |
| AddEditTaskUi.AddEditTaskViewModel.OnSaveClick | app/src/main/java/com/codinginflow/mvvmtodo/ui/addedittask/AddEditTaskViewModel.kt:39-66 | blank name: only the "Name cannot be empty" event, no table call; edit: one update with name and importance replaced, then the edit result; create: one insert of a new, not completed task with id 0 under a fresh key, then the add result |
| AddEditTaskUi.AddEditTaskViewModel.ReceiveEvent | app/src/main/java/com/codinginflow/mvvmtodo/ui/addedittask/AddEditTaskViewModel.kt:36-37 | the screen receives the oldest pending event and it leaves the channel |
| AddEditTaskUi.Recreate | app/src/main/java/com/codinginflow/mvvmtodo/ui/addedittask/AddEditTaskViewModel.kt:21-34 | a view-model built from another's saved state has the same draft |
| DeleteAllCompletedUi.DeleteAllCompletedViewModel.OnConfirmClick | app/src/main/java/com/codinginflow/mvvmtodo/ui/deleteallcompleted/DeleteAllCompletedViewModel.kt:16-18 | no completed task remains, and every task that was not completed is still there, unchanged; the key counter is unchanged |
| DeleteAllCompletedUi.ConfirmTwice | app/src/main/java/com/codinginflow/mvvmtodo/ui/deleteallcompleted/DeleteAllCompletedViewModel.kt:16-18 | confirming twice leaves the same table as confirming once, with the key counter unchanged |
| TaskDatabase.SeedTasks | app/src/main/java/com/codinginflow/mvvmtodo/data/TaskDatabase.kt:34-41 | the eight sample tasks in insertion order, each built with id 0 and its own clock reading |
| TaskDatabase.OneImportantSeed | app/src/main/java/com/codinginflow/mvvmtodo/data/TaskDatabase.kt:36 | exactly one sample task, "Buy groceries", is important |
| TaskDatabase.TwoCompletedSeeds | app/src/main/java/com/codinginflow/mvvmtodo/data/TaskDatabase.kt:37-39 | exactly two sample tasks, "Prepare food" and "Visit grandma", are completed |
| TaskDatabase.SeededTableRows | app/src/main/java/com/codinginflow/mvvmtodo/data/TaskDatabase.kt:34-41 | after the first `n` inserts the keys are `base` to `base + n - 1` and key `base + i` holds sample task `i` |
| TaskDatabase.SeededTableIsSeeded | app/src/main/java/com/codinginflow/mvvmtodo/data/TaskDatabase.kt:34-41 | the table after all eight inserts holds the eight sample tasks under eight consecutive keys |
| TaskDatabase.OnCreate | app/src/main/java/com/codinginflow/mvvmtodo/data/TaskDatabase.kt:26-43 | eight inserts into the empty table, in the listed order, with eight distinct consecutive fresh ids |
| TaskDatabase.KeyRange | app/src/main/java/com/codinginflow/mvvmtodo/data/TaskDatabase.kt:34-41 | the `n` keys from `lo` on, of which there are `n` |
| TaskDatabase.SeededRow | app/src/main/java/com/codinginflow/mvvmtodo/data/TaskDatabase.kt:34-41 | each seeded row is the sample task its key selects |
| TaskDatabase.SeededWellKeyed | app/src/main/java/com/codinginflow/mvvmtodo/data/TaskDatabase.kt:34-41 | the seeded table stores each row under its own non-zero id |
| TaskDatabase.SeededAllMatch | app/src/main/java/com/codinginflow/mvvmtodo/data/TaskDatabase.kt:34-41 | with the empty query and completed tasks shown, all eight keys match |
| TaskDatabase.SeededCompleted | app/src/main/java/com/codinginflow/mvvmtodo/data/TaskDatabase.kt:37-39 | the completed rows are the fourth and sixth inserted, "Prepare food" and "Visit grandma" |
| TaskDatabase.SeededActiveMatch | app/src/main/java/com/codinginflow/mvvmtodo/data/TaskDao.kt:18 | with completed tasks hidden, the matching keys are all keys but the two completed ones |
| TaskDatabase.SeededImportant | app/src/main/java/com/codinginflow/mvvmtodo/data/TaskDatabase.kt:36 | the only important seeded row is "Buy groceries", under the third key |
| TaskDatabase.ListShowsAllOf | app/src/main/java/com/codinginflow/mvvmtodo/data/TaskDao.kt:18-22 | on eight well-keyed matching rows whose only important task is "Buy groceries", the list has eight tasks with it first |
| TaskDatabase.SeededListShowsAll | app/src/main/java/com/codinginflow/mvvmtodo/data/TaskDatabase.kt:34-41 | on the seeded table, the empty query with completed tasks shown lists all eight tasks, "Buy groceries" first, in either order |
| TaskDatabase.ListHidesCompletedOf | app/src/main/java/com/codinginflow/mvvmtodo/data/TaskDao.kt:18 | with two completed rows of eight hidden, the list has six tasks, none completed and none named "Prepare food" or "Visit grandma" |
| TaskDatabase.SeededListHidesCompleted | app/src/main/java/com/codinginflow/mvvmtodo/data/TaskDatabase.kt:37-39 | on the seeded table, hiding completed tasks lists the six others, excluding "Prepare food" and "Visit grandma" |

## Left out

- The coroutine and reactive machinery is not modelled:
  - `viewModelScope.launch`, `applicationScope.launch`, `combine`, `flatMapLatest` and `asLiveData`;
  - suspension on the rendezvous channel.
  Each action runs to completion before the next. The list is a function of the latest inputs, so the cancellation of superseded queries is not modelled.
- Strings.Contains: SQLite's `LIKE` is ASCII case-insensitive and reads `%` and `_` in the query as wildcards. The model uses a plain, case-sensitive substring test.
- TaskQuery.SortTasks: ties beyond the ORDER BY keys are unspecified in SQLite. The contracts state sortedness and permutation only, not one exact order of equal tasks.
- `createdDateFormatted` is not modelled: it is locale-dependent date formatting.
- `System.currentTimeMillis()` is not modelled. Where a task is built, the clock reading is a parameter: `now` in `OnSaveClick`, `created` in `OnCreate`.
- `PreferencesManager` is not part of this model's sources. It is a DataStore-backed store, modelled as two fields with two setters, and its defaults are taken as sort by date and show completed tasks.
- `ADD_TASK_RESULT_OK` and `EDIT_TASK_RESULT_OK` are not part of this model's sources. They are modelled as the distinct constants 1 and 2.
- TaskDao.TaskTable.Insert: a generated key is the counter `nextId`, which follows SQLite AUTOINCREMENT. What happens when the key reaches Room's maximum is not modelled.
- `Int` and `Long` widths are not modelled: ids and times are unbounded integers, so key overflow is not captured.
- Storage failures are not modelled: every table call succeeds. The same goes for Room's notification of observers.
- The fragments, the rest of the list adapter, the search-view extension, `exhaustive` and the dependency-injection wiring are UI or wiring, with no rules of their own.
- TaskDatabase.OnCreate is written as eight calls of a one-insert helper, one per sample task, in the listed order. The helper's contract carries the table built so far from each insert to the next.
