/**
 * Rescheduling after a device boot (BootReceiver): every stored task, in
 * the order the store lists them, goes through updateNotification with its
 * own id as the alarm key.
 */
module Boot {
  import opened TaskModel
  import opened Store
  import opened Notifications

  /** The alarm table after updateNotification was applied to each task in turn. */
  function RescheduleAll(alarms: map<int, int>, ts: seq<TaskData>, now: int): map<int, int>
    decreases |ts|
  {
    if ts == [] then alarms
    else
      var last := ts[|ts| - 1];
      Rescheduled(RescheduleAll(alarms, ts[..|ts| - 1], now), last, last.id, now)
  }

  /** One more step of the loop reschedules the next task. */
  lemma RescheduleAllStep(alarms: map<int, int>, ts: seq<TaskData>, now: int, i: int)
    requires 0 <= i < |ts|
    ensures RescheduleAll(alarms, ts[..i + 1], now) ==
      Rescheduled(RescheduleAll(alarms, ts[..i], now), ts[i], ts[i].id, now)
  {
    assert ts[..i + 1][..i] == ts[..i];
  }

  /** No task after the i-th shares its alarm key. */
  predicate LastWithKey(ts: seq<TaskData>, i: int)
    requires 0 <= i < |ts|
  {
    forall j :: i < j < |ts| ==> ToInt32(ts[j].id) != ToInt32(ts[i].id)
  }

  /**
   * The alarm under a task's key, when no later task shares that key, is the
   * one the rule gives for that task alone: set at its reminder time exactly
   * when the reminder is after now and the task is not done.
   */
  lemma {:induction false} RescheduleAllLast(alarms: map<int, int>, ts: seq<TaskData>, now: int, i: int)
    requires 0 <= i < |ts| && LastWithKey(ts, i)
    ensures ToInt32(ts[i].id) in RescheduleAll(alarms, ts, now) <==> ShouldSchedule(ts[i], now)
    ensures ToInt32(ts[i].id) in RescheduleAll(alarms, ts, now) ==>
      RescheduleAll(alarms, ts, now)[ToInt32(ts[i].id)] == ts[i].reminder.value
    decreases |ts|
  {
    if i < |ts| - 1 {
      var prefix := ts[..|ts| - 1];
      assert forall j :: 0 <= j < |prefix| ==> prefix[j] == ts[j];
      RescheduleAllLast(alarms, prefix, now, i);
    }
  }

  /** An alarm whose key belongs to no task survives the reboot pass untouched. */
  lemma {:induction false} RescheduleAllElsewhere(alarms: map<int, int>, ts: seq<TaskData>, now: int, key: int)
    requires forall i :: 0 <= i < |ts| ==> ToInt32(ts[i].id) != key
    ensures key in RescheduleAll(alarms, ts, now) <==> key in alarms
    ensures key in alarms ==> RescheduleAll(alarms, ts, now)[key] == alarms[key]
    decreases |ts|
  {
    if ts != [] {
      var prefix := ts[..|ts| - 1];
      assert forall i :: 0 <= i < |prefix| ==> prefix[i] == ts[i];
      RescheduleAllElsewhere(alarms, prefix, now, key);
    }
  }

  /**
   * While every stored id fits in an int, each stored task ends up with
   * exactly the alarm the rule gives it, under its own id.
   */
  lemma BootReschedulesEveryTask(db: Db, alarms: map<int, int>, now: int, i: int)
    requires ValidDb(db) && db.lastId <= MAX_INT
    requires 0 <= i < |AllTasks(db)|
    ensures var t := AllTasks(db)[i];
      (t.id in RescheduleAll(alarms, AllTasks(db), now) <==> ShouldSchedule(t, now)) &&
      (t.id in RescheduleAll(alarms, AllTasks(db), now) ==>
        RescheduleAll(alarms, AllTasks(db), now)[t.id] == t.reminder.value)
  {
    var ts := AllTasks(db);
    AllTasksDecodesRows(db);
    AllTasksDistinct(db);
    forall j | 0 <= j < |ts|
      ensures ToInt32(ts[j].id) == ts[j].id
    {
      ToInt32Keeps(ts[j].id);
    }
    RescheduleAllLast(alarms, ts, now, i);
  }

  /**
   * onReceive: loads all tasks and updates the notification of each, keyed
   * by its own id, with the same current time. The store is not changed.
   */
  method OnReceive(db: DatabaseHelper, alarmManager: AlarmManager, now: int)
    modifies alarmManager
    ensures alarmManager.alarms == RescheduleAll(old(alarmManager.alarms), AllTasks(db.State()), now)
  {
    var tasks := db.GetAll();
    ghost var values := Values(tasks);
    label Loaded:
    for i := 0 to |tasks|
      invariant unchanged@Loaded(tasks)
      invariant alarmManager.alarms == RescheduleAll(old(alarmManager.alarms), values[..i], now)
    {
      var task := tasks[i];
      assert task.Value() == values[i];
      RescheduleAllStep(old(alarmManager.alarms), values, now, i);
      UpdateNotification(task, task.id, now, alarmManager);
    }
    assert values[..|tasks|] == values;
  }
}
