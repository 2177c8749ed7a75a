/**
 * Scheduling of reminder alarms (NotificationHelper). The alarm service is
 * abstract: a table from the request code of an alarm's pending intent to
 * the wall-clock time, in milliseconds, at which it fires.
 */
module Notifications {
  import opened Wrappers
  import opened TaskModel

  const TWO_TO_THE_32: int := 0x1_0000_0000
  const MIN_INT: int := -0x8000_0000
  const MAX_INT: int := 0x7FFF_FFFF

  /** Java's narrowing cast `(int)` of a long: its low 32 bits as a two's complement int. */
  function ToInt32(x: int): (r: int)
    ensures MIN_INT <= r <= MAX_INT
    ensures (x - r) % TWO_TO_THE_32 == 0
  {
    var low := x % TWO_TO_THE_32;
    if low > MAX_INT then low - TWO_TO_THE_32 else low
  }

  /** The cast keeps every value that fits in an int. */
  lemma ToInt32Keeps(x: int)
    requires MIN_INT <= x <= MAX_INT
    ensures ToInt32(x) == x
  {
  }

  /** Two ids share an alarm key exactly when they agree modulo 2^32. */
  lemma {:induction false} SameKey(a: int, b: int)
    ensures ToInt32(a) == ToInt32(b) <==> (a - b) % TWO_TO_THE_32 == 0
  {
    var ra, rb := ToInt32(a), ToInt32(b);
    var qa, qb := (a - ra) / TWO_TO_THE_32, (b - rb) / TWO_TO_THE_32;
    assert a == ra + qa * TWO_TO_THE_32;
    assert b == rb + qb * TWO_TO_THE_32;
    assert a - b == (ra - rb) + (qa - qb) * TWO_TO_THE_32;
    if (a - b) % TWO_TO_THE_32 == 0 {
      var q := (a - b) / TWO_TO_THE_32;
      assert ra - rb == (q - qa + qb) * TWO_TO_THE_32;
      assert -TWO_TO_THE_32 < ra - rb < TWO_TO_THE_32;
      assert ra == rb;
    }
  }

  /** The key collision the source leaves open: ids 1 and 2^32 + 1 share one alarm slot. */
  lemma KeysCollide()
    ensures ToInt32(1) == ToInt32(TWO_TO_THE_32 + 1) == 1
  {
  }

  /** The rule of updateNotification: a reminder strictly after now, for a task not done. */
  predicate ShouldSchedule(t: TaskData, now: int) {
    t.reminder.Some? && t.reminder.value > now && !t.done
  }

  /**
   * The alarm table after updateNotification: the alarm under the task's key
   * is cancelled, and set again at the reminder time when the rule holds;
   * every other key keeps its alarm.
   */
  function Rescheduled(alarms: map<int, int>, t: TaskData, taskId: int, now: int): (r: map<int, int>)
    ensures ToInt32(taskId) in r <==> ShouldSchedule(t, now)
    ensures ToInt32(taskId) in r ==> r[ToInt32(taskId)] == t.reminder.value
    ensures forall k :: k != ToInt32(taskId) ==> (k in r <==> k in alarms)
    ensures forall k :: k != ToInt32(taskId) && k in r ==> r[k] == alarms[k]
  {
    var key := ToInt32(taskId);
    var cancelled := alarms - {key};
    if ShouldSchedule(t, now) then cancelled[key := t.reminder.value] else cancelled
  }

  /** Calling updateNotification twice with the same task and time is calling it once. */
  lemma RescheduledIdempotent(alarms: map<int, int>, t: TaskData, taskId: int, now: int)
    ensures Rescheduled(Rescheduled(alarms, t, taskId, now), t, taskId, now) == Rescheduled(alarms, t, taskId, now)
  {
    var once := Rescheduled(alarms, t, taskId, now);
    var twice := Rescheduled(once, t, taskId, now);
    assert twice.Keys == once.Keys;
  }

  /** What came before does not matter: the result depends on the old table only off the key. */
  lemma RescheduledForgetsKey(a: map<int, int>, b: map<int, int>, t: TaskData, taskId: int, now: int)
    requires a - {ToInt32(taskId)} == b - {ToInt32(taskId)}
    ensures Rescheduled(a, t, taskId, now) == Rescheduled(b, t, taskId, now)
  {
  }

  /** A reminder at exactly now is not scheduled, and neither is a done task's. */
  lemma NotScheduled(alarms: map<int, int>, t: TaskData, taskId: int, now: int)
    requires t.reminder == Some(now) || t.done || t.reminder.None?
    ensures ToInt32(taskId) !in Rescheduled(alarms, t, taskId, now)
  {
  }

  /** The alarm service: pending alarms by request code, each with its trigger time. */
  class AlarmManager {
    var alarms: map<int, int>

    constructor ()
      ensures alarms == map[]
    {
      alarms := map[];
    }

    /** Cancels the alarm of the pending intent with this request code, if any. */
    method Cancel(requestCode: int)
      modifies this
      ensures alarms == old(alarms) - {requestCode}
    {
      alarms := alarms - {requestCode};
    }

    /** Sets the alarm of the pending intent with this request code, replacing any earlier one. */
    method Set(triggerAtMillis: int, requestCode: int)
      modifies this
      ensures alarms == old(alarms)[requestCode := triggerAtMillis]
    {
      alarms := alarms[requestCode := triggerAtMillis];
    }
  }

  /**
   * Cancels the task's alarm, then sets it again at the reminder time when
   * the reminder is after now and the task is not done. The key is the
   * passed id cast to int.
   */
  method UpdateNotification(task: Task, taskId: int, now: int, alarmManager: AlarmManager)
    modifies alarmManager
    ensures alarmManager.alarms == Rescheduled(old(alarmManager.alarms), task.Value(), taskId, now)
  {
    var requestCode := ToInt32(taskId);
    alarmManager.Cancel(requestCode);
    var reminderDate := task.reminder;
    if reminderDate.Some? && reminderDate.value > now && !task.done {
      alarmManager.Set(task.reminder.value, requestCode);
    }
  }
}
