/**
 * The task record of simpLISTic: a mutable object whose identifier is fixed
 * when it is constructed, and the mapping from the column values of a stored
 * row to a task (a reminder only for positive due dates, done only for 1).
 */
module TaskModel {
  import opened Wrappers

  /** The id of a task that was not persisted yet. */
  const TRANSIENT: int := -1

  /** What the getter's documentation promises of an id: transient or positive. */
  predicate IsDocumentedId(id: int) {
    id == TRANSIENT || id > 0
  }

  /** The free-form details of a task, kept as a schema-less text blob in the store. */
  datatype Detail = Detail(notes: string)

  /** The details every task starts with: empty notes. */
  const DefaultDetail: Detail := Detail("")

  /**
   * Stand-in for the JSON text of a Detail. The store relies on two facts
   * about the real serialiser only: its output is never empty, and reading
   * it back yields the same Detail (lemma DetailJsonRoundTrip).
   */
  function DetailToJson(d: Detail): (json: string)
    ensures |json| >= 2
  {
    "{" + d.notes + "}"
  }

  /** Stand-in for reading a Detail back from its JSON text. */
  function DetailFromJson(json: string): Detail {
    if |json| >= 2 then Detail(json[1..|json| - 1]) else DefaultDetail
  }

  lemma DetailJsonRoundTrip(d: Detail)
    ensures DetailFromJson(DetailToJson(d)) == d
  {
    var json := DetailToJson(d);
    assert json[1..|json| - 1] == d.notes;
  }

  /** The done flag as the store reads it: only the integer 1 means done. */
  function DoneFromInt(doneInt: int): bool {
    doneInt == 1
  }

  /** The reminder as the store reads it from a due date in milliseconds. */
  function ReminderFromMillis(dateInMillis: int): Option<int> {
    if dateInMillis > 0 then Some(dateInMillis) else None
  }

  /** The details as read from the stored text: null or empty text keeps the default. */
  function DetailFromColumn(detailsJson: Option<string>): Detail {
    if detailsJson.Some? && detailsJson.value != "" then DetailFromJson(detailsJson.value)
    else DefaultDetail
  }

  /**
   * The abstract value of a Task object. The reminder is the epoch time in
   * milliseconds of the reminder date, None where the source holds null.
   */
  datatype TaskData = TaskData(
    id: int,
    title: string,
    listPosition: int,
    reminder: Option<int>,
    done: bool,
    details: Detail)

  /** The value of a task built from a title alone. */
  function NewTaskValue(title: string): (t: TaskData)
    ensures t.id == TRANSIENT && IsDocumentedId(t.id)
    ensures t.title == title && t.listPosition == 0
    ensures t.reminder == None && !t.done && t.details.notes == ""
  {
    TaskData(TRANSIENT, title, 0, None, false, DefaultDetail)
  }

  /** The value of a task built from the columns of a stored row. */
  function TaskFromColumns(id: int, title: string, listPosition: int, dateInMillis: int,
                           doneInt: int, detailsJson: Option<string>): (t: TaskData)
    ensures t.id == id && t.title == title && t.listPosition == listPosition
    ensures t.reminder.Some? <==> dateInMillis > 0
    ensures t.reminder.Some? ==> t.reminder.value == dateInMillis
    ensures t.done <==> doneInt == 1
    ensures detailsJson == None || detailsJson == Some("") ==> t.details == DefaultDetail
  {
    TaskData(id, title, listPosition, ReminderFromMillis(dateInMillis),
             DoneFromInt(doneInt), DetailFromColumn(detailsJson))
  }

  /** A single task; every field but the id can be changed after construction. */
  class Task {
    const id: int
    var listPosition: int
    var title: string
    var reminder: Option<int>
    var done: bool
    var details: Detail

    function Value(): TaskData
      reads this
    {
      TaskData(id, title, listPosition, reminder, done, details)
    }

    /** A new task with the passed title, not yet persisted. */
    constructor (title: string)
      ensures Value() == NewTaskValue(title)
    {
      this.id := TRANSIENT;
      this.listPosition := 0;
      this.title := title;
      this.reminder := None;
      this.done := false;
      this.details := DefaultDetail;
    }

    /** A task initialised from the columns of a stored row. */
    constructor FromColumns(id: int, title: string, listPosition: int, dateInMillis: int,
                            doneInt: int, detailsJson: Option<string>)
      ensures Value() == TaskFromColumns(id, title, listPosition, dateInMillis, doneInt, detailsJson)
    {
      this.listPosition := listPosition;
      this.title := title;
      this.id := id;
      this.reminder := None;
      if dateInMillis > 0 {
        this.reminder := Some(dateInMillis);
      }
      this.done := false;
      if doneInt == 1 {
        this.done := true;
      }
      this.details := DefaultDetail;
      if detailsJson.Some? && detailsJson.value != "" {
        this.details := DetailFromJson(detailsJson.value);
      }
    }

    method SetTitle(title: string)
      modifies this
      ensures Value() == old(Value()).(title := title)
    {
      this.title := title;
    }

    method SetReminder(reminder: Option<int>)
      modifies this
      ensures Value() == old(Value()).(reminder := reminder)
    {
      this.reminder := reminder;
    }

    method SetListPosition(listPosition: int)
      modifies this
      ensures Value() == old(Value()).(listPosition := listPosition)
    {
      this.listPosition := listPosition;
    }

    method SetDone(done: bool)
      modifies this
      ensures Value() == old(Value()).(done := done)
    {
      this.done := done;
    }

    method SetDetails(details: Detail)
      modifies this
      ensures Value() == old(Value()).(details := details)
    {
      this.details := details;
    }

    /** Replaces the notes of the task's details and nothing else. */
    method SetNotes(notes: string)
      modifies this
      ensures Value() == old(Value()).(details := Detail(notes))
    {
      this.details := Detail(notes);
    }
  }

  /** The values of a list of tasks, in list order. */
  function Values(tasks: seq<Task>): (values: seq<TaskData>)
    reads tasks
    ensures |values| == |tasks|
    ensures forall i :: 0 <= i < |tasks| ==> values[i] == tasks[i].Value()
  {
    seq(|tasks|, i reads tasks requires 0 <= i < |tasks| => tasks[i].Value())
  }
}
