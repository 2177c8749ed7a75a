/**
 * The task store (DatabaseHelper): create, read, update and delete of tasks
 * over the single `tasks` table. The table is abstract: a map from `_id` to
 * the row's other columns, together with the largest id that AUTOINCREMENT
 * has handed out so far.
 */
module Store {
  import opened Wrappers
  import opened TaskModel

  /** The largest integer SQLite stores, Long.MAX_VALUE in Java. */
  const MAX_LONG: int := 0x7FFF_FFFF_FFFF_FFFF

  /** The columns of one row of the tasks table, apart from `_id`. */
  datatype Row = Row(
    title: string,
    listPos: int,
    dueDate: int,
    done: int,
    detailsJson: Option<string>)

  /**
   * The tasks table: its rows by `_id`, and `lastId`, the largest id that
   * AUTOINCREMENT has handed out since the table was created.
   */
  datatype Db = Db(rows: map<int, Row>, lastId: int)

  /** AUTOINCREMENT ids are positive and never above the last one handed out. */
  predicate ValidDb(db: Db) {
    0 <= db.lastId <= MAX_LONG &&
    forall id :: id in db.rows ==> 1 <= id <= db.lastId
  }

  /** The row written for a task: due date 0 for no reminder, done as 1 or 0. */
  function ContentValues(t: TaskData): Row {
    Row(t.title,
        t.listPosition,
        if t.reminder.Some? then t.reminder.value else 0,
        if t.done then 1 else 0,
        Some(DetailToJson(t.details)))
  }

  /** The task read back from the row with the given id. */
  function DecodeRow(id: int, row: Row): TaskData {
    TaskFromColumns(id, row.title, row.listPos, row.dueDate, row.done, row.detailsJson)
  }

  /**
   * Writing a task and reading it back keeps its title, position, done flag
   * and details; the reminder survives exactly when it is absent or its time
   * is after the epoch.
   */
  lemma RowRoundTrip(id: int, t: TaskData)
    ensures DecodeRow(id, ContentValues(t)).id == id
    ensures DecodeRow(id, ContentValues(t)) == t.(id := id) <==> t.reminder.None? || t.reminder.value > 0
    ensures t.reminder.None? ==> ContentValues(t).dueDate == 0
  {
    DetailJsonRoundTrip(t.details);
  }

  // ---- the SQL statements, on table values ----

  /** INSERT: the next AUTOINCREMENT id, or -1 once the largest id has been used. */
  function Insert(db: Db, row: Row): (int, Db) {
    if db.lastId == MAX_LONG then (-1, db)
    else (db.lastId + 1, Db(db.rows[db.lastId + 1 := row], db.lastId + 1))
  }

  /** UPDATE ... WHERE _id LIKE id: the number of rows changed, and the new table. */
  function UpdateById(db: Db, id: int, row: Row): (int, Db) {
    if id in db.rows then (1, db.(rows := db.rows[id := row])) else (0, db)
  }

  /** DELETE ... WHERE _id LIKE id: the number of rows removed, and the new table. */
  function DeleteById(db: Db, id: int): (int, Db) {
    if id in db.rows then (1, db.(rows := db.rows - {id})) else (0, db)
  }

  // ---- the operations of the store, on table values ----

  /** save: update by id unless the task is transient, else insert. */
  function SaveSpec(db: Db, t: TaskData): (int, Db) {
    if t.id != TRANSIENT then
      var (count, db') := UpdateById(db, t.id, ContentValues(t));
      (if count == 1 then t.id else -1, db')
    else
      Insert(db, ContentValues(t))
  }

  lemma SaveSpecResult(db: Db, t: TaskData)
    requires ValidDb(db)
    ensures var (id, db') := SaveSpec(db, t);
      && ValidDb(db')
      && (id == -1 ==> db' == db)
      && (t.id == TRANSIENT ==>
            (id == -1 <==> db.lastId == MAX_LONG) &&
            (id != -1 ==> id > 0 && id !in db.rows && db'.rows == db.rows[id := ContentValues(t)]))
      && (t.id != TRANSIENT ==>
            (id == t.id <==> t.id in db.rows) &&
            (id != t.id ==> id == -1) &&
            (id != -1 ==> db'.rows == db.rows[id := ContentValues(t)]))
  {
  }

  /**
   * The loop of saveAll over a list: each task is saved in turn, and the
   * first failing write ends the loop with the writes before it applied.
   */
  function SaveEach(db: Db, ts: seq<TaskData>): (bool, Db)
    decreases |ts|
  {
    if ts == [] then (true, db)
    else
      var (ok, prefix) := SaveEach(db, ts[..|ts| - 1]);
      if !ok then (false, prefix)
      else
        var (id, db') := SaveSpec(prefix, ts[|ts| - 1]);
        (id != -1, db')
  }

  /** saveAll: false for an empty list, otherwise the save loop. */
  function SaveAllSpec(db: Db, ts: seq<TaskData>): (bool, Db) {
    if ts == [] then (false, db) else SaveEach(db, ts)
  }

  /** The save loop keeps the table valid and never removes a row. */
  lemma {:induction false} SaveEachValid(db: Db, ts: seq<TaskData>)
    requires ValidDb(db)
    ensures ValidDb(SaveEach(db, ts).1)
    ensures db.rows.Keys <= SaveEach(db, ts).1.rows.Keys
    ensures db.lastId <= SaveEach(db, ts).1.lastId
    decreases |ts|
  {
    if ts != [] {
      SaveEachValid(db, ts[..|ts| - 1]);
      SaveSpecResult(SaveEach(db, ts[..|ts| - 1]).1, ts[|ts| - 1]);
    }
  }

  /** One more step of the save loop saves the next task into the table the loop has so far. */
  lemma SaveEachStep(db: Db, ts: seq<TaskData>, i: int)
    requires 0 <= i < |ts| && SaveEach(db, ts[..i]).0
    ensures SaveEach(db, ts[..i + 1]) ==
      (SaveSpec(SaveEach(db, ts[..i]).1, ts[i]).0 != -1, SaveSpec(SaveEach(db, ts[..i]).1, ts[i]).1)
  {
    assert ts[..i + 1][..i] == ts[..i];
  }

  /** Once a write has failed, no later task of the list is written. */
  lemma {:induction false} SaveEachStops(db: Db, ts: seq<TaskData>, k: nat)
    requires k <= |ts|
    requires !SaveEach(db, ts[..k]).0
    ensures SaveEach(db, ts) == SaveEach(db, ts[..k])
    decreases |ts| - k
  {
    if k < |ts| {
      var n := |ts|;
      assert ts[..n - 1][..k] == ts[..k];
      SaveEachStops(db, ts[..n - 1], k);
      assert ts[..n][..n - 1] == ts[..n - 1];
    } else {
      assert ts[..k] == ts;
    }
  }

  /**
   * A failed save loop stopped at some task k: every task before it was
   * written, the write of task k failed and changed nothing, and there is
   * no roll back of the earlier writes.
   */
  lemma {:induction false} SaveEachFailure(db: Db, ts: seq<TaskData>) returns (k: nat)
    requires ValidDb(db)
    requires !SaveEach(db, ts).0
    ensures k < |ts|
    ensures SaveEach(db, ts[..k]).0
    ensures SaveSpec(SaveEach(db, ts[..k]).1, ts[k]).0 == -1
    ensures SaveEach(db, ts).1 == SaveEach(db, ts[..k]).1
    decreases |ts|
  {
    var n := |ts|;
    var (ok, prefix) := SaveEach(db, ts[..n - 1]);
    assert ts[..n - 1] == ts[..n - 1][..n - 1];
    if !ok {
      k := SaveEachFailure(db, ts[..n - 1]);
      assert ts[..n - 1][..k] == ts[..k];
      assert ts[..n - 1][k] == ts[k];
    } else {
      k := n - 1;
      SaveEachValid(db, ts[..k]);
      SaveSpecResult(prefix, ts[k]);
    }
  }

  /**
   * The other half of saveAll's result: when the loop succeeds, every task's
   * write succeeded, each into the table the writes before it left.
   */
  lemma SaveEachAllWritten(db: Db, ts: seq<TaskData>, k: nat)
    requires k < |ts| && SaveEach(db, ts).0
    ensures SaveEach(db, ts[..k]).0
    ensures SaveSpec(SaveEach(db, ts[..k]).1, ts[k]).0 != -1
  {
    if !SaveEach(db, ts[..k]).0 {
      SaveEachStops(db, ts, k);
    } else {
      SaveEachStep(db, ts, k);
      if !SaveEach(db, ts[..k + 1]).0 {
        SaveEachStops(db, ts, k + 1);
      }
    }
  }

  /** Every task the save loop reports as saved has a row when it succeeds. */
  lemma {:induction false} SaveEachSuccess(db: Db, ts: seq<TaskData>)
    requires ValidDb(db)
    requires SaveEach(db, ts).0
    ensures forall i :: 0 <= i < |ts| && ts[i].id != TRANSIENT ==> ts[i].id in SaveEach(db, ts).1.rows
    decreases |ts|
  {
    if ts != [] {
      var n := |ts|;
      var prefix := SaveEach(db, ts[..n - 1]).1;
      SaveEachSuccess(db, ts[..n - 1]);
      SaveEachValid(db, ts[..n - 1]);
      SaveSpecResult(prefix, ts[n - 1]);
      forall i | 0 <= i < n - 1 && ts[i].id != TRANSIENT
        ensures ts[i].id in SaveEach(db, ts).1.rows
      {
        assert ts[..n - 1][i] == ts[i];
      }
    }
  }

  /**
   * The save loop succeeds when every non-transient id has a row and the
   * ids left to AUTOINCREMENT suffice for the inserts.
   */
  lemma {:induction false} SaveEachSucceeds(db: Db, ts: seq<TaskData>)
    requires ValidDb(db)
    requires db.lastId + |ts| <= MAX_LONG
    requires forall i :: 0 <= i < |ts| && ts[i].id != TRANSIENT ==> ts[i].id in db.rows
    ensures SaveEach(db, ts).0
    ensures SaveEach(db, ts).1.lastId <= db.lastId + |ts|
    decreases |ts|
  {
    if ts != [] {
      var n := |ts|;
      SaveEachSucceeds(db, ts[..n - 1]);
      SaveEachValid(db, ts[..n - 1]);
      SaveSpecResult(SaveEach(db, ts[..n - 1]).1, ts[n - 1]);
    }
  }

  /** getTask: an error for ids below 1, NotFound when no row has the id. */
  datatype Fetched<T> = IllegalArgument | NotFound | Found(task: T)

  function Lookup(db: Db, id: int): Fetched<TaskData> {
    if id < 1 then IllegalArgument
    else if id in db.rows then Found(DecodeRow(id, db.rows[id]))
    else NotFound
  }

  /**
   * A successful save can be read back under the id it returned: the new id
   * for a transient task, the task's own id otherwise.
   */
  lemma SaveThenLookup(db: Db, t: TaskData)
    requires ValidDb(db)
    ensures var (id, db') := SaveSpec(db, t);
      id != -1 ==>
        && (t.id != TRANSIENT ==> id == t.id)
        && Lookup(db', id).Found?
        && var back := Lookup(db', id).task;
           back.id == id && back.title == t.title && back.listPosition == t.listPosition &&
           back.done == t.done && back.details == t.details &&
           (t.reminder.None? || t.reminder.value > 0 ==> back.reminder == t.reminder)
  {
    SaveSpecResult(db, t);
    var (id, db') := SaveSpec(db, t);
    if id != -1 {
      RowRoundTrip(id, t);
    }
  }

  /** deleteTask: nothing for the transient id, otherwise delete by id. */
  function DeleteSpec(db: Db, id: int): (int, Db) {
    if id == TRANSIENT then (0, db) else DeleteById(db, id)
  }

  lemma DeleteSpecResult(db: Db, id: int)
    ensures var (count, db') := DeleteSpec(db, id);
      && (id == TRANSIENT ==> count == 0 && db' == db)
      && (id != TRANSIENT ==> db'.rows == db.rows - {id} && (count == 1 <==> id in db.rows))
      && (count != 1 ==> count == 0)
      && db'.lastId == db.lastId
      && (id >= 1 ==> Lookup(db', id) == NotFound)
  {
  }

  // ---- the order of getAll ----

  /** The query order of getAll: ascending list position, equal positions by id. */
  predicate Precedes(rows: map<int, Row>, a: int, b: int)
    requires a in rows && b in rows
  {
    rows[a].listPos < rows[b].listPos || (rows[a].listPos == rows[b].listPos && a <= b)
  }

  /** Every non-empty set of row ids has a first id in query order. */
  lemma {:induction false} FirstExists(rows: map<int, Row>, s: set<int>)
    requires |s| > 0 && s <= rows.Keys
    ensures exists k :: k in s && forall j :: j in s ==> Precedes(rows, k, j)
    decreases s
  {
    if forall y :: y !in s {
      assert false;
    }
    var x :| x in s;
    if |s| == 1 {
      forall j | j in s
        ensures Precedes(rows, x, j)
      {
        assert j in s - {x} ==> |s - {x}| > 0;
      }
    } else {
      FirstExists(rows, s - {x});
      var k :| k in s - {x} && forall j :: j in s - {x} ==> Precedes(rows, k, j);
      var first := if Precedes(rows, x, k) then x else k;
      forall j | j in s
        ensures Precedes(rows, first, j)
      {
        if j != x {
          assert Precedes(rows, k, j);
        }
      }
    }
  }

  /** The first id of a set in query order. */
  ghost function First(rows: map<int, Row>, s: set<int>): (k: int)
    requires |s| > 0 && s <= rows.Keys
    ensures k in s && forall j :: j in s ==> Precedes(rows, k, j)
  {
    FirstExists(rows, s);
    var k :| k in s && forall j :: j in s ==> Precedes(rows, k, j); k
  }

  /** Two ids that both come first in query order are the same id. */
  lemma FirstUnique(rows: map<int, Row>, s: set<int>, a: int, b: int)
    requires s <= rows.Keys && a in s && b in s
    requires forall j :: j in s ==> Precedes(rows, a, j)
    requires forall j :: j in s ==> Precedes(rows, b, j)
    ensures a == b
  {
    assert Precedes(rows, a, b) && Precedes(rows, b, a);
  }

  /** The query order of a set starts with its first id. */
  lemma OrderedIdsStep(rows: map<int, Row>, s: set<int>, id: int)
    requires s <= rows.Keys && id in s
    requires forall j :: j in s ==> Precedes(rows, id, j)
    ensures OrderedIds(rows, s) == [id] + OrderedIds(rows, s - {id})
  {
    FirstUnique(rows, s, id, First(rows, s));
  }

  /** The ids of the set in query order. */
  ghost function OrderedIds(rows: map<int, Row>, s: set<int>): (ids: seq<int>)
    requires s <= rows.Keys
    ensures |ids| == |s|
    ensures forall id :: id in s <==> id in ids
    decreases s
  {
    if s == {} then []
    else
      var k := First(rows, s);
      [k] + OrderedIds(rows, s - {k})
  }

  /** The ids are distinct and each comes before every later one in query order. */
  predicate SortedIds(rows: map<int, Row>, ids: seq<int>)
    requires forall i :: 0 <= i < |ids| ==> ids[i] in rows
  {
    forall i, j :: 0 <= i < j < |ids| ==> ids[i] != ids[j] && Precedes(rows, ids[i], ids[j])
  }

  /** Putting an id first that precedes, and differs from, all others keeps the ids sorted. */
  lemma SortedIdsCons(rows: map<int, Row>, k: int, rest: seq<int>)
    requires k in rows && forall i :: 0 <= i < |rest| ==> rest[i] in rows
    requires forall i :: 0 <= i < |rest| ==> rest[i] != k && Precedes(rows, k, rest[i])
    requires SortedIds(rows, rest)
    ensures SortedIds(rows, [k] + rest)
  {
    var ids := [k] + rest;
    forall i, j | 0 <= i < j < |ids|
      ensures ids[i] != ids[j] && Precedes(rows, ids[i], ids[j])
    {
      assert ids[j] == rest[j - 1];
      if i > 0 {
        assert ids[i] == rest[i - 1];
      }
    }
  }

  /** The query order lists each id once and follows Precedes. */
  lemma {:induction false} OrderedIdsSorted(rows: map<int, Row>, s: set<int>)
    requires s <= rows.Keys
    ensures SortedIds(rows, OrderedIds(rows, s))
    decreases s
  {
    if s != {} {
      var k := First(rows, s);
      var rest := OrderedIds(rows, s - {k});
      OrderedIdsSorted(rows, s - {k});
      forall i | 0 <= i < |rest|
        ensures rest[i] != k && Precedes(rows, k, rest[i])
      {
        assert rest[i] in s - {k};
      }
      SortedIdsCons(rows, k, rest);
    }
  }

  /** The tasks decoded from the rows with the given ids, in that order. */
  function Decoded(rows: map<int, Row>, ids: seq<int>): (ts: seq<TaskData>)
    requires forall i :: 0 <= i < |ids| ==> ids[i] in rows
  {
    seq(|ids|, i requires 0 <= i < |ids| => DecodeRow(ids[i], rows[ids[i]]))
  }

  lemma SeqAssoc<T>(a: seq<T>, b: seq<T>, c: seq<T>)
    ensures a + b + c == a + (b + c)
  {
  }

  /** What getAll returns: the rows of the table decoded in query order. */
  ghost function AllTasks(db: Db): seq<TaskData> {
    Decoded(db.rows, OrderedIds(db.rows, db.rows.Keys))
  }

  /** The i-th decoded task is the row of the i-th id, under that id. */
  lemma DecodedIds(rows: map<int, Row>, ids: seq<int>)
    requires forall i :: 0 <= i < |ids| ==> ids[i] in rows
    ensures |Decoded(rows, ids)| == |ids|
    ensures forall i :: 0 <= i < |ids| ==> Decoded(rows, ids)[i].id == ids[i]
  {
  }

  /** getAll lists rows of the table only, each as the task decoded under its own id. */
  lemma AllTasksDecodesRows(db: Db)
    ensures |AllTasks(db)| == |db.rows.Keys|
    ensures forall i :: 0 <= i < |AllTasks(db)| ==>
      AllTasks(db)[i].id in db.rows &&
      AllTasks(db)[i] == DecodeRow(AllTasks(db)[i].id, db.rows[AllTasks(db)[i].id])
  {
    DecodedIds(db.rows, OrderedIds(db.rows, db.rows.Keys));
  }

  /** getAll lists every row of the table. */
  lemma AllTasksListsEveryRow(db: Db)
    ensures forall id :: id in db.rows ==> exists i :: 0 <= i < |AllTasks(db)| && AllTasks(db)[i].id == id
  {
    var ids := OrderedIds(db.rows, db.rows.Keys);
    DecodedIds(db.rows, ids);
    forall id | id in db.rows
      ensures exists i :: 0 <= i < |AllTasks(db)| && AllTasks(db)[i].id == id
    {
      var i :| 0 <= i < |ids| && ids[i] == id;
      assert AllTasks(db)[i].id == id;
    }
  }

  /** getAll lists no row twice. */
  lemma AllTasksDistinct(db: Db)
    ensures forall i, j :: 0 <= i < j < |AllTasks(db)| ==> AllTasks(db)[i].id != AllTasks(db)[j].id
  {
    var ids := OrderedIds(db.rows, db.rows.Keys);
    var ts := AllTasks(db);
    assert ts == Decoded(db.rows, ids);
    OrderedIdsSorted(db.rows, db.rows.Keys);
    forall i, j | 0 <= i < j < |ts|
      ensures ts[i].id != ts[j].id
    {
      assert ts[i].id == ids[i] && ts[j].id == ids[j];
    }
  }

  /** getAll is ordered by non-decreasing list position. */
  lemma AllTasksSorted(db: Db)
    ensures forall i, j :: 0 <= i < j < |AllTasks(db)| ==>
      AllTasks(db)[i].listPosition <= AllTasks(db)[j].listPosition
  {
    var ids := OrderedIds(db.rows, db.rows.Keys);
    var ts := AllTasks(db);
    OrderedIdsSorted(db.rows, db.rows.Keys);
    forall i, j | 0 <= i < j < |ts|
      ensures ts[i].listPosition <= ts[j].listPosition
    {
      assert Precedes(db.rows, ids[i], ids[j]);
    }
  }

  /** A stored task always has a positive id, as the getter's documentation promises. */
  lemma StoredIdsDocumented(db: Db, id: int)
    requires ValidDb(db)
    ensures Lookup(db, id).Found? ==> IsDocumentedId(Lookup(db, id).task.id)
    ensures forall i :: 0 <= i < |AllTasks(db)| ==> IsDocumentedId(AllTasks(db)[i].id)
  {
    AllTasksDecodesRows(db);
  }

  /** The data access object over the tasks table. */
  class DatabaseHelper {
    var rows: map<int, Row>
    var lastId: int

    function State(): Db
      reads this
    {
      Db(rows, lastId)
    }

    predicate Valid()
      reads this
    {
      ValidDb(State())
    }

    /** A freshly created, empty tasks table. */
    constructor ()
      ensures Valid() && State() == Db(map[], 0)
    {
      rows := map[];
      lastId := 0;
    }

    /** The INSERT statement. */
    method DbInsert(values: Row) returns (newRowId: int)
      requires Valid()
      modifies this
      ensures Valid()
      ensures (newRowId, State()) == Insert(old(State()), values)
    {
      if lastId == MAX_LONG {
        return -1;
      }
      lastId := lastId + 1;
      rows := rows[lastId := values];
      newRowId := lastId;
    }

    /** The UPDATE statement for one id. */
    method DbUpdate(id: int, values: Row) returns (count: int)
      requires Valid()
      modifies this
      ensures Valid()
      ensures (count, State()) == UpdateById(old(State()), id, values)
    {
      count := 0;
      if id in rows {
        rows := rows[id := values];
        count := 1;
      }
    }

    /** Saves or updates the task; the new row id, the task's id, or -1 on failure. */
    method Save(task: Task) returns (id: int)
      requires Valid()
      modifies this
      ensures Valid()
      ensures (id, State()) == SaveSpec(old(State()), task.Value())
      ensures task.Value() == old(task.Value())
    {
      if task.id != TRANSIENT {
        id := UpdateTask(task);
        return;
      }
      var values := ContentValues(task.Value());
      id := DbInsert(values);
    }

    /** Updates the row of a persisted task; its id when exactly one row changed, else -1. */
    method UpdateTask(task: Task) returns (id: int)
      requires Valid()
      requires task.id != TRANSIENT
      modifies this
      ensures Valid()
      ensures (id, State()) == SaveSpec(old(State()), task.Value())
    {
      var values := ContentValues(task.Value());
      var count := DbUpdate(task.id, values);
      if count == 1 {
        id := task.id;
      } else {
        id := -1;
      }
    }

    /**
     * The body of saveAll's loop: inserts a transient task, updates a
     * persisted one, and tells whether the write took effect.
     */
    method Write(task: Task) returns (written: bool)
      requires Valid()
      modifies this
      ensures Valid()
      ensures var (id, db) := SaveSpec(old(State()), task.Value());
        written == (id != -1) && State() == db
    {
      var values := ContentValues(task.Value());
      if task.id == TRANSIENT {
        var id := DbInsert(values);
        written := id != -1;
      } else {
        var updateCount := DbUpdate(task.id, values);
        written := updateCount == 1;
      }
    }

    /** Saves or updates every task in list order; stops at the first failure, without roll back. */
    method SaveAll(tasks: seq<Task>) returns (ok: bool)
      requires Valid()
      modifies this
      ensures Valid()
      ensures (ok, State()) == SaveAllSpec(old(State()), Values(tasks))
    {
      if |tasks| == 0 {
        return false;
      }
      ghost var start := State();
      ghost var vs := Values(tasks);
      var i := 0;
      while i < |tasks|
        invariant 0 <= i <= |tasks|
        invariant Valid()
        invariant SaveEach(start, vs[..i]) == (true, State())
      {
        SaveEachStep(start, vs, i);
        var written := Write(tasks[i]);
        if !written {
          SaveEachStops(start, vs, i + 1);
          return false;
        }
        i := i + 1;
      }
      assert vs[..i] == vs;
      ok := true;
    }

    /** The task with the given id: an error for ids below 1, NotFound without such a row. */
    method GetTask(id: int) returns (r: Fetched<Task>)
      ensures r.IllegalArgument? <==> Lookup(State(), id).IllegalArgument?
      ensures r.NotFound? <==> Lookup(State(), id).NotFound?
      ensures r.Found? ==> fresh(r.task) && r.task.Value() == Lookup(State(), id).task
    {
      if id < 1 {
        return IllegalArgument;
      }
      if id in rows {
        var row := rows[id];
        var task := new Task.FromColumns(id, row.title, row.listPos, row.dueDate, row.done, row.detailsJson);
        return Found(task);
      }
      return NotFound;
    }

    /** Deletes the row of the given id; the number of deleted rows. */
    method DeleteTask(id: int) returns (count: int)
      requires Valid()
      modifies this
      ensures Valid()
      ensures (count, State()) == DeleteSpec(old(State()), id)
    {
      if id == TRANSIENT {
        return 0;
      }
      count := 0;
      if id in rows {
        rows := rows - {id};
        count := 1;
      }
    }

    /**
     * The query `ORDER BY listpos ASC`: the ids of the cursor's rows. Each
     * step takes the first row, in query order, not taken yet.
     */
    method QueryByListPosition() returns (cursor: seq<int>)
      ensures cursor == OrderedIds(rows, rows.Keys)
    {
      cursor := [];
      var unread := rows.Keys;
      while unread != {}
        invariant unread <= rows.Keys
        invariant cursor + OrderedIds(rows, unread) == OrderedIds(rows, rows.Keys)
        decreases unread
      {
        FirstExists(rows, unread);
        var id :| id in unread && forall j :: j in unread ==> Precedes(rows, id, j);
        OrderedIdsStep(rows, unread, id);
        SeqAssoc(cursor, [id], OrderedIds(rows, unread - {id}));
        cursor := cursor + [id];
        unread := unread - {id};
      }
    }

    /** All tasks ordered by list position: one new task per row of the cursor. */
    method GetAll() returns (tasks: seq<Task>)
      ensures Values(tasks) == AllTasks(State())
      ensures forall i :: 0 <= i < |tasks| ==> fresh(tasks[i])
    {
      var cursor := QueryByListPosition();
      var table := rows;
      ghost var expected := Decoded(table, cursor);
      tasks := [];
      var i := 0;
      while i < |cursor|
        invariant 0 <= i <= |cursor| && |tasks| == i
        invariant forall k :: 0 <= k < i ==> fresh(tasks[k]) && tasks[k].Value() == expected[k]
      {
        var id := cursor[i];
        var row := table[id];
        var task := new Task.FromColumns(id, row.title, row.listPos, row.dueDate, row.done, row.detailsJson);
        assert task.Value() == expected[i];
        ghost var previous := tasks;
        tasks := tasks + [task];
        forall k | 0 <= k < i
          ensures tasks[k] == previous[k] && fresh(tasks[k]) && tasks[k].Value() == expected[k]
        {
          assert tasks[k] == previous[k];
        }
        i := i + 1;
      }
    }

    /** Drops and recreates the table: no rows, and AUTOINCREMENT starts over. */
    method DeleteAll()
      modifies this
      ensures Valid() && State() == Db(map[], 0)
      ensures AllTasks(State()) == []
    {
      rows := map[];
      lastId := 0;
    }
  }
}
