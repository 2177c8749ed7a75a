# simpLISTic in Dafny

simpLISTic is an Android to-do list. Under its views sit a few small rules, and this project models them and proves what they do:

- **The task record** (`TaskModel`, `task.dfy`). A `Task` object has a fixed id: `TRANSIENT` (-1) for a task built from a title, which saving does not change; tasks read back from the store carry their positive row id. Its other fields have setters. The model also covers how the columns of a stored row become a task: a reminder only for a due date above 0, and done only for the integer 1.
- **The task store** (`Store`, `store.dfy`). `DatabaseHelper` works over one SQLite table. Here that table is abstract: a map from `_id` to the row, plus the last id AUTOINCREMENT handed out. The model covers `save`, `updateTask`, `saveAll`, `getContentValues`, `getTask`, `deleteTask`, `getAll` and `deleteAll`. Each method is proved against a function on table values, and the lemmas state the properties of those functions: encode/decode round trip, insert versus update, stop at the first failure without roll back, every row listed once and in list-position order.
- **Reminder alarms** (`Notifications`, `notification.dfy`). `updateNotification` works on an abstract alarm table from request code to trigger time. It always cancels the task's alarm first. It sets the alarm again only for a reminder strictly after now on a task that is not done. The request code is the id cast to a Java `int`, so ids that agree modulo 2^32 share one alarm.
- **Rescheduling after boot** (`Boot`, `boot.dfy`). `BootReceiver.onReceive` applies the alarm rule to every stored task in `getAll` order.
- **The list screen** (`TasksView`, `tasks_view.dfy`). `TasksFragment` holds the shown list. A drag swaps two tasks, a swipe removes one, and undo puts it back at its old position. When the undo snackbar goes away for any reason other than its action, and while a listener is attached, the task is reported deleted and the list positions are renumbered. Calls on the hosting activity are recorded as `Notice` values. A done report and a moved report also record the task values the listener saw, because the listener saves a done task at once and keeps the moved list to save later.
- **The edit screen** (`EditTask`, `edit_task.dfy`). `saveTask` writes the typed title and notes into the task before it validates them. It then rejects an empty title, then a reminder before now, and otherwise reports the change. The reminder checkbox sets or clears the reminder. A transient task switches edit mode off for good.

"Now", the default reminder date and the ids are parameters. The source reads them from the clock, from `Global`, or from the database.

## Model

All source paths are below `simpLISTic/src/main/java/de/leoliebig/simpLISTic/`. They are written out in full in the table.

| member | source | states |
|---|---|---|
| TaskModel.NewTaskValue | simpLISTic/src/main/java/de/leoliebig/simpLISTic/model/Task.java:18-33 | a task made from a title is transient (a documented id), at position 0, with no reminder, not done, and with empty notes |
| TaskModel.Task.constructor | simpLISTic/src/main/java/de/leoliebig/simpLISTic/model/Task.java:31-33 | the new object's value is that of a task made from the title |
| TaskModel.TaskFromColumns | simpLISTic/src/main/java/de/leoliebig/simpLISTic/model/Task.java:44-58 | id, title and position are copied; there is a reminder iff the millis are > 0, and its time is those millis; done iff the stored int is 1; null or empty details text leaves the default details |
| TaskModel.Task.FromColumns | simpLISTic/src/main/java/de/leoliebig/simpLISTic/model/Task.java:44-60 | the field-by-field construction yields exactly the row-decoding value |
| TaskModel.Task.SetTitle | simpLISTic/src/main/java/de/leoliebig/simpLISTic/model/Task.java:66-68 | only the title changes; the id is a constant, so no setter can change it |
| TaskModel.Task.SetReminder | simpLISTic/src/main/java/de/leoliebig/simpLISTic/model/Task.java:74-76 | only the reminder changes |
| TaskModel.Task.SetListPosition | simpLISTic/src/main/java/de/leoliebig/simpLISTic/model/Task.java:82-84 | only the list position changes |
| TaskModel.Task.SetDone | simpLISTic/src/main/java/de/leoliebig/simpLISTic/model/Task.java:90-92 | only the done flag changes |
| TaskModel.Task.SetDetails | simpLISTic/src/main/java/de/leoliebig/simpLISTic/model/Task.java:98-100 | only the details change |
| TaskModel.Task.SetNotes | simpLISTic/src/main/java/de/leoliebig/simpLISTic/model/Task.java:135-137 | only the notes of the task's details change |
| TaskModel.DetailJsonRoundTrip | simpLISTic/src/main/java/de/leoliebig/simpLISTic/model/Task.java:53-55 | reading back the stored text of a task's details gives the same details |
| Store.RowRoundTrip | simpLISTic/src/main/java/de/leoliebig/simpLISTic/db/DatabaseHelper.java:147-158 | a missing reminder is written as due date 0; reading the row back under an id gives the task with that id, unchanged otherwise, iff its reminder is absent or after the epoch |
| Store.SaveSpecResult | simpLISTic/src/main/java/de/leoliebig/simpLISTic/db/DatabaseHelper.java:85-96 | save keeps the table valid; -1 leaves it unchanged; a transient task fails iff the ids are used up, and otherwise gets a fresh positive id with a new row; a stored task's own id is returned iff its row exists and was overwritten, else -1 |
| Store.SaveThenLookup | simpLISTic/src/main/java/de/leoliebig/simpLISTic/db/DatabaseHelper.java:213-231 | after a successful save, getTask on the returned id finds the task with the same title, position, done flag and details, and the same reminder when it is after the epoch |
| Store.SaveEachValid | simpLISTic/src/main/java/de/leoliebig/simpLISTic/db/DatabaseHelper.java:115-138 | the saveAll loop keeps the table valid and removes no row |
| Store.SaveEachStops | simpLISTic/src/main/java/de/leoliebig/simpLISTic/db/DatabaseHelper.java:120-133 | once a write in the loop has failed, no later task is written |
| Store.SaveEachFailure | simpLISTic/src/main/java/de/leoliebig/simpLISTic/db/DatabaseHelper.java:115-138 | a failed loop stopped at some task k: all tasks before k were written, the write of k failed, and the earlier writes stay (no roll back) |
| Store.SaveEachAllWritten | simpLISTic/src/main/java/de/leoliebig/simpLISTic/db/DatabaseHelper.java:115-138 | when the loop succeeds, every task's write succeeded, each applied to the table the earlier writes left |
| Store.SaveEachSuccess | simpLISTic/src/main/java/de/leoliebig/simpLISTic/db/DatabaseHelper.java:125-134 | when the loop succeeds, every non-transient task in the list has a row |
| Store.SaveEachSucceeds | simpLISTic/src/main/java/de/leoliebig/simpLISTic/db/DatabaseHelper.java:115-138 | the loop succeeds when every non-transient id has a row and enough ids are left for the inserts |
| Store.DeleteSpecResult | simpLISTic/src/main/java/de/leoliebig/simpLISTic/db/DatabaseHelper.java:244-262 | deleting the transient id returns 0 and changes nothing; otherwise exactly that row goes, the count is 1 iff it existed (else 0), and getTask then finds nothing |
| Store.OrderedIdsSorted | simpLISTic/src/main/java/de/leoliebig/simpLISTic/db/DatabaseHelper.java:274-286 | the query lists distinct ids, each row before every row it precedes in ascending list position |
| Store.AllTasksListsEveryRow | simpLISTic/src/main/java/de/leoliebig/simpLISTic/db/DatabaseHelper.java:268-322 | every row of the table appears in the list getAll returns |
| Store.AllTasksDecodesRows | simpLISTic/src/main/java/de/leoliebig/simpLISTic/db/DatabaseHelper.java:268-322 | getAll returns as many tasks as there are rows, each the decoding of a row of the table under that row's id |
| Store.AllTasksDistinct | simpLISTic/src/main/java/de/leoliebig/simpLISTic/db/DatabaseHelper.java:274-322 | no row appears twice in the list getAll returns |
| Store.AllTasksSorted | simpLISTic/src/main/java/de/leoliebig/simpLISTic/db/DatabaseHelper.java:274-286 | getAll is ordered by non-decreasing list position |
| Store.StoredIdsDocumented | simpLISTic/src/main/java/de/leoliebig/simpLISTic/model/Task.java:102-109 | every task read from a valid table has an id the getter's documentation allows (positive) |
| Store.DatabaseHelper.constructor | simpLISTic/src/main/java/de/leoliebig/simpLISTic/db/Schema.java:16-25 | a new table is empty and AUTOINCREMENT has handed out no id |
| Store.DatabaseHelper.DbInsert | simpLISTic/src/main/java/de/leoliebig/simpLISTic/db/DatabaseHelper.java:92 | the insert statement: the next AUTOINCREMENT id and its row, or -1 with nothing changed |
| Store.DatabaseHelper.DbUpdate | simpLISTic/src/main/java/de/leoliebig/simpLISTic/db/DatabaseHelper.java:171-175 | the update by `_id`: the count of changed rows and the new table |
| Store.DatabaseHelper.Save | simpLISTic/src/main/java/de/leoliebig/simpLISTic/db/DatabaseHelper.java:85-96 | result and new table are those of the save function; the passed task is not changed, so its id stays transient |
| Store.DatabaseHelper.UpdateTask | simpLISTic/src/main/java/de/leoliebig/simpLISTic/db/DatabaseHelper.java:165-186 | result and new table are those of the save function for a stored task |
| Store.DatabaseHelper.Write | simpLISTic/src/main/java/de/leoliebig/simpLISTic/db/DatabaseHelper.java:117-133 | one pass of the saveAll loop: a transient task is inserted and a persisted one updated; the write took effect exactly when the save rule does not yield -1, and the table becomes the one that rule gives |
| Store.DatabaseHelper.SaveAll | simpLISTic/src/main/java/de/leoliebig/simpLISTic/db/DatabaseHelper.java:103-139 | false and no write for an empty list; otherwise result and new table are those of the save loop |
| Store.DatabaseHelper.GetTask | simpLISTic/src/main/java/de/leoliebig/simpLISTic/db/DatabaseHelper.java:193-237 | an IllegalArgument error for ids below 1, NotFound when no row has the id, otherwise a new task decoded from that row |
| Store.DatabaseHelper.DeleteTask | simpLISTic/src/main/java/de/leoliebig/simpLISTic/db/DatabaseHelper.java:244-262 | count and new table are those of the delete function |
| Store.DatabaseHelper.QueryByListPosition | simpLISTic/src/main/java/de/leoliebig/simpLISTic/db/DatabaseHelper.java:274-286 | the cursor lists the ids in query order |
| Store.DatabaseHelper.GetAll | simpLISTic/src/main/java/de/leoliebig/simpLISTic/db/DatabaseHelper.java:268-322 | new task objects whose values are all rows, decoded, in query order |
| Store.DatabaseHelper.DeleteAll | simpLISTic/src/main/java/de/leoliebig/simpLISTic/db/DatabaseHelper.java:328-333 | the table is empty, AUTOINCREMENT starts over, and getAll then lists nothing |
| Notifications.ToInt32 | simpLISTic/src/main/java/de/leoliebig/simpLISTic/controller/NotificationHelper.java:78 | the cast gives an int in range that agrees with the id modulo 2^32 |
| Notifications.ToInt32Keeps | simpLISTic/src/main/java/de/leoliebig/simpLISTic/controller/NotificationHelper.java:78 | ids that fit in an int are their own key |
| Notifications.SameKey | simpLISTic/src/main/java/de/leoliebig/simpLISTic/controller/NotificationHelper.java:78 | two ids share a key iff they agree modulo 2^32 |
| Notifications.KeysCollide | simpLISTic/src/main/java/de/leoliebig/simpLISTic/controller/NotificationHelper.java:78 | ids 1 and 2^32 + 1 share key 1 |
| Notifications.Rescheduled | simpLISTic/src/main/java/de/leoliebig/simpLISTic/controller/NotificationHelper.java:76-92 | afterwards an alarm exists under the key iff the reminder is present, strictly after now, and the task is not done; it fires at the reminder time; every other key keeps its alarm |
| Notifications.RescheduledIdempotent | simpLISTic/src/main/java/de/leoliebig/simpLISTic/controller/NotificationHelper.java:84-92 | applying the rule twice with the same task and now is applying it once |
| Notifications.RescheduledForgetsKey | simpLISTic/src/main/java/de/leoliebig/simpLISTic/controller/NotificationHelper.java:84 | because of the unconditional cancel, the earlier alarm under the key has no effect on the result |
| Notifications.NotScheduled | simpLISTic/src/main/java/de/leoliebig/simpLISTic/controller/NotificationHelper.java:90 | a reminder exactly at now, a done task, or no reminder leaves no alarm under the key |
| Notifications.AlarmManager.Cancel | simpLISTic/src/main/java/de/leoliebig/simpLISTic/controller/NotificationHelper.java:84 | removes the alarm of that request code only |
| Notifications.AlarmManager.Set | simpLISTic/src/main/java/de/leoliebig/simpLISTic/controller/NotificationHelper.java:92 | sets or replaces the alarm of that request code only |
| Notifications.UpdateNotification | simpLISTic/src/main/java/de/leoliebig/simpLISTic/controller/NotificationHelper.java:68-97 | the alarm table afterwards is the rescheduling function of the old table |
| Boot.RescheduleAllLast | simpLISTic/src/main/java/de/leoliebig/simpLISTic/controller/BootReceiver.java:26-28 | after the loop, a task that no later task shares a key with has an alarm iff its reminder is in the future and it is not done, and the alarm fires at its reminder time |
| Boot.RescheduleAllElsewhere | simpLISTic/src/main/java/de/leoliebig/simpLISTic/controller/BootReceiver.java:26-28 | alarms under keys of no task are untouched |
| Boot.BootReschedulesEveryTask | simpLISTic/src/main/java/de/leoliebig/simpLISTic/controller/BootReceiver.java:25-28 | while stored ids fit in an int, every stored task ends up with exactly the alarm the rule gives it, under its own id |
| Boot.OnReceive | simpLISTic/src/main/java/de/leoliebig/simpLISTic/controller/BootReceiver.java:22-30 | the alarm table afterwards is the rule applied to every task of getAll, in its order, with each stored id as the key; only the alarm table may change |
| TasksView.SwapPermutes | simpLISTic/src/main/java/de/leoliebig/simpLISTic/view/TasksFragment.java:203 | the swap exchanges exactly the two elements, keeps every other index, is a permutation, and undoes itself |
| TasksView.RemoveAtShifts | simpLISTic/src/main/java/de/leoliebig/simpLISTic/view/TasksFragment.java:215 | removal drops exactly the element at the position, and later elements shift down by one |
| TasksView.InsertAtShifts | simpLISTic/src/main/java/de/leoliebig/simpLISTic/view/TasksFragment.java:145 | insertion puts the task at the position and shifts later elements up by one |
| TasksView.UndoRestores | simpLISTic/src/main/java/de/leoliebig/simpLISTic/view/TasksFragment.java:145 | reinserting the removed task at its position restores the list from before the swipe |
| TasksView.DistinctPreserved | simpLISTic/src/main/java/de/leoliebig/simpLISTic/view/TasksFragment.java:200-219 | swaps, removals and inserting a task not in the list keep the list free of duplicates |
| TasksView.LastIndex | simpLISTic/src/main/java/de/leoliebig/simpLISTic/view/TasksFragment.java:172-174 | the index of the last occurrence, or -1 iff the element does not occur |
| TasksView.LastIndexAppend | simpLISTic/src/main/java/de/leoliebig/simpLISTic/view/TasksFragment.java:172-174 | one more step of the loop gives the new element its index and keeps the others' positions |
| TasksView.LastIndexDistinct | simpLISTic/src/main/java/de/leoliebig/simpLISTic/view/TasksFragment.java:172-174 | without duplicates, each element's last index is its index |
| TasksView.NumberedDistinct | simpLISTic/src/main/java/de/leoliebig/simpLISTic/view/TasksFragment.java:171-176 | a renumbered list without duplicates has position i at index i |
| TasksView.Renumber | simpLISTic/src/main/java/de/leoliebig/simpLISTic/view/TasksFragment.java:172-174 | every task's position becomes its last index in the list; no other field of any task changes |
| TasksView.TasksFragment.constructor | simpLISTic/src/main/java/de/leoliebig/simpLISTic/view/TasksFragment.java:40-46 | an empty list, no listener |
| TasksView.TasksFragment.OnAttach | simpLISTic/src/main/java/de/leoliebig/simpLISTic/view/TasksFragment.java:67-77 | the hosting activity becomes the listener |
| TasksView.TasksFragment.OnDetach | simpLISTic/src/main/java/de/leoliebig/simpLISTic/view/TasksFragment.java:79-83 | the listener is dropped |
| TasksView.TasksFragment.OnItemChecked | simpLISTic/src/main/java/de/leoliebig/simpLISTic/view/TasksFragment.java:95-100 | the task's done flag becomes the checked state and nothing else of it changes; only then is the listener told, so the recorded value it saw already has the new done flag |
| TasksView.TasksFragment.OnTitleClicked | simpLISTic/src/main/java/de/leoliebig/simpLISTic/view/TasksFragment.java:103-106 | the listener is asked to edit the task |
| TasksView.TasksFragment.UpdateContent | simpLISTic/src/main/java/de/leoliebig/simpLISTic/view/TasksFragment.java:112-122 | the shown list equals the argument, element for element |
| TasksView.TasksFragment.UpdateTaskPositions | simpLISTic/src/main/java/de/leoliebig/simpLISTic/view/TasksFragment.java:171-176 | order and length stay; each task's position becomes its index (the later one for a task shown twice); nothing else changes; only after the renumbering is the listener told the list moved, and the recorded values it saw carry the new positions |
| TasksView.TasksFragment.OnMove | simpLISTic/src/main/java/de/leoliebig/simpLISTic/view/TasksFragment.java:200-206 | the list becomes the swap of the two positions; returns true |
| TasksView.TasksFragment.OnMoved | simpLISTic/src/main/java/de/leoliebig/simpLISTic/view/TasksFragment.java:232-235 | the positions are renumbered, then reported with the renumbered values |
| TasksView.TasksFragment.OnSwiped | simpLISTic/src/main/java/de/leoliebig/simpLISTic/view/TasksFragment.java:209-219 | the task at the position is removed from the list and kept, with its position, for the undo snackbar |
| TasksView.TasksFragment.OnUndo | simpLISTic/src/main/java/de/leoliebig/simpLISTic/view/TasksFragment.java:142-148 | the kept task is reinserted at its old position |
| TasksView.TasksFragment.OnDismissed | simpLISTic/src/main/java/de/leoliebig/simpLISTic/view/TasksFragment.java:151-162 | with a listener and an event other than the undo action, the task is reported deleted, then the list is renumbered and reported with the renumbered values; otherwise nothing changes |
| EditTask.ValidateAccepts | simpLISTic/src/main/java/de/leoliebig/simpLISTic/view/EditTaskFragment.java:165-178 | a save is accepted iff the title is not empty and the reminder is absent or not before now |
| EditTask.TitleCheckedFirst | simpLISTic/src/main/java/de/leoliebig/simpLISTic/view/EditTaskFragment.java:165-172 | an empty title is reported even when the reminder is also in the past |
| EditTask.ValidateRejectsPast | simpLISTic/src/main/java/de/leoliebig/simpLISTic/view/EditTaskFragment.java:172-175 | the past-reminder hint shows iff the title is set and the reminder is strictly before now |
| EditTask.AcceptedButNotScheduled | simpLISTic/src/main/java/de/leoliebig/simpLISTic/view/EditTaskFragment.java:172 | a reminder exactly at now passes validation, yet the alarm rule sets no alarm for it |
| EditTask.EditTaskFragment.constructor | simpLISTic/src/main/java/de/leoliebig/simpLISTic/view/EditTaskFragment.java:47-48 | edit mode starts on, with no task |
| EditTask.EditTaskFragment.SetTask | simpLISTic/src/main/java/de/leoliebig/simpLISTic/view/EditTaskFragment.java:290-292 | the task is taken; edit mode stays on iff it was on and the task is not transient, so it never turns back on |
| EditTask.EditTaskFragment.SaveTask | simpLISTic/src/main/java/de/leoliebig/simpLISTic/view/EditTaskFragment.java:157-179 | the typed title and notes are written into the task whatever the outcome; the outcome is the validation of them; the listener is told of the change iff it is accepted, and only after the writes, so the recorded value it saw carries the typed title and notes |
| EditTask.EditTaskFragment.OnCheckedChanged | simpLISTic/src/main/java/de/leoliebig/simpLISTic/view/EditTaskFragment.java:331-340 | ticking sets the reminder to the default date, unticking removes it; nothing else of the task changes |

## Left out

- SQLite, `Cursor`, `ContentValues` and the helper's open/close lifecycle, including `onCreate` and `onUpgrade`. The table is a map. The only failure modelled is AUTOINCREMENT running out of ids at the largest long. Disk and I/O errors are not modelled.
- The order of rows with equal list positions: SQL leaves it open, and the model breaks ties by id.
- Gson. The details text is a stand-in encoding that is never empty and reads back to the same details. Those are the only facts about Gson the store relies on. Malformed details text is not modelled.
- Java `int` widths of the list position and the done column. They are unbounded integers here. Only the `(int)` cast of the alarm key is modelled.
- `Detail` aliasing. The details are a value inside the task, and setting notes replaces that value. So another holder of the same `Detail` object would not see the change.
- The Rx variants (`getAllAsync`, `saveAllAsync`, observers) and `synchronized`. Concurrency is out of scope.
- The alarm service, `PendingIntent`, `buildNotification` and `NotificationReceiver`. The alarm table keeps only the trigger time per request code, not the intent's title or notification.
- Boot.OnReceive: the source reads the clock once per task, but the model uses one `now` for the whole loop.
- `Calendar`, `Date` and the default reminder date (`Global.getDefaultReminderDate`). Dates are epoch milliseconds, and the default date is a parameter.
- The date and time pickers, `getDateStrings`, `updateViews` and `onBackPressed` of the edit screen.
- The adapter, view binding, toasts, dialogs, menus, `setDoneTasksHidden`, and the activities' dirty-flag handling.
- `Preferences`.
- TasksView.TasksFragment.OnMove: requires both positions to be within the list. The adapter can report no position (-1), and then `Collections.swap` throws; that exception is not modelled.
- TasksView.TasksFragment.OnSwiped: requires the position to be within the list. The adapter can report no position (-1), and then `tasks.get` throws; that exception is not modelled.
- TasksView.TasksFragment.UpdateContent: the shown list is a value, and the new list is a copy of the argument. The source clears its own list and then adds the argument's elements. If the argument is that same list object, the source ends up with an empty list. The hosting activity does keep the list reported by a move and later passes it back. In the call orders visible in the source, the result is the same, but this aliasing is not captured.
- TasksView.TasksFragment.OnUndo: requires the position to be within the list. The source's `add` throws past the end, and that exception is not modelled.
- TasksView.TasksFragment.OnItemChecked, OnTitleClicked, UpdateTaskPositions and OnMoved: require an attached listener. The source would throw a null-pointer exception without one.
- EditTask.EditTaskFragment.SaveTask and OnCheckedChanged: require a task to be set. The listener is assumed present.
