/**
 * The edit screen (EditTaskFragment): the input is written into the task,
 * then validated (a title first, then a reminder not in the past) before
 * the listener hears of the change; the reminder checkbox and the
 * edit-or-create flag.
 */
module EditTask {
  import opened Wrappers
  import opened TaskModel
  import opened Notifications

  /** What a save attempt ends in: one of the two hints shown, or the change reported. */
  datatype SaveOutcome = TitleMissing | ReminderInPast | Changed

  /**
   * A call the screen made on the hosting activity, with the value of the
   * task the listener saw: both listeners save the task at once.
   */
  datatype Notice = TaskChanged(task: Task, seen: TaskData)

  /**
   * The validation of saveTask: an empty title is reported first, then a
   * reminder strictly before now; anything else is accepted.
   */
  function Validate(title: string, reminder: Option<int>, now: int): SaveOutcome {
    if title == "" then TitleMissing
    else if reminder.Some? && reminder.value < now then ReminderInPast
    else Changed
  }

  /** A save is accepted exactly when the title is not empty and the reminder, if any, is not before now. */
  lemma ValidateAccepts(title: string, reminder: Option<int>, now: int)
    ensures Validate(title, reminder, now) == Changed <==>
      title != "" && (reminder.None? || reminder.value >= now)
  {
  }

  /** The empty-title hint wins over the past-reminder hint. */
  lemma TitleCheckedFirst(reminder: Option<int>, now: int)
    ensures Validate("", reminder, now) == TitleMissing
  {
  }

  /** The past-reminder hint is shown exactly for a titled task whose reminder is before now. */
  lemma ValidateRejectsPast(title: string, reminder: Option<int>, now: int)
    ensures Validate(title, reminder, now) == ReminderInPast <==>
      title != "" && reminder.Some? && reminder.value < now
  {
  }

  /**
   * The gap between the two rules: a task whose reminder is exactly now is
   * accepted by the edit screen but gets no alarm.
   */
  lemma AcceptedButNotScheduled(t: TaskData, alarms: map<int, int>, now: int)
    requires t.title != "" && t.reminder == Some(now)
    ensures Validate(t.title, t.reminder, now) == Changed
    ensures !ShouldSchedule(t, now)
    ensures ToInt32(t.id) !in Rescheduled(alarms, t, t.id, now)
  {
    NotScheduled(alarms, t, t.id, now);
  }

  /** The edit screen. */
  class EditTaskFragment {
    /** Whether an existing task is edited rather than a new one created. */
    var isEdit: bool
    /** The task being edited. */
    var task: Task?
    /** The calls made on the listener, oldest first. */
    var notices: seq<Notice>

    constructor ()
      ensures isEdit && task == null && notices == []
    {
      isEdit := true;
      task := null;
      notices := [];
    }

    /**
     * Shows the passed task. A transient one means a new task: the screen
     * stops being in edit mode, and nothing turns edit mode back on.
     */
    method SetTask(taskToEdit: Task)
      modifies this
      ensures task == taskToEdit
      ensures isEdit <==> old(isEdit) && taskToEdit.id != TRANSIENT
      ensures notices == old(notices)
    {
      task := taskToEdit;
      if task.id == TRANSIENT {
        isEdit := false;
      }
    }

    /**
     * Writes the title and notes typed in into the task, whatever comes of
     * the validation, and reports the task to the listener when it passes.
     */
    method SaveTask(titleInput: string, notesInput: string, now: int) returns (outcome: SaveOutcome)
      requires task != null
      modifies this, task
      ensures task == old(task) && isEdit == old(isEdit)
      ensures task.Value() == old(task.Value()).(title := titleInput, details := Detail(notesInput))
      ensures outcome == Validate(titleInput, old(task.reminder), now)
      ensures outcome == Changed ==> notices == old(notices) + [TaskChanged(task, task.Value())]
      ensures outcome != Changed ==> notices == old(notices)
    {
      task.SetTitle(titleInput);
      task.SetNotes(notesInput);
      if task.title == "" {
        outcome := TitleMissing;
      } else if task.reminder.Some? && task.reminder.value < now {
        outcome := ReminderInPast;
      } else {
        notices := notices + [TaskChanged(task, task.Value())];
        outcome := Changed;
      }
    }

    /** Ticking the reminder box sets the default reminder date; unticking removes the reminder. */
    method OnCheckedChanged(isChecked: bool, defaultReminderDate: int)
      requires task != null
      modifies task
      ensures isChecked ==> task.Value() == old(task.Value()).(reminder := Some(defaultReminderDate))
      ensures !isChecked ==> task.Value() == old(task.Value()).(reminder := None)
    {
      if isChecked {
        task.SetReminder(Some(defaultReminderDate));
      } else {
        task.SetReminder(None);
      }
    }
  }
}
