/**
 * The list screen (TasksFragment): the list of tasks it shows, the gestures
 * that reorder and remove them, the undo of a removal and the renumbering
 * of list positions it reports to the hosting activity.
 */
module TasksView {
  import opened TaskModel

  /**
   * The dismiss event of an undo snackbar closed by a click on its action,
   * the undo; every other event value leads to the delete.
   */
  const DISMISS_EVENT_ACTION: int := 1

  /**
   * A call the screen made on the hosting activity. TaskDone and TaskMoved
   * also record the values the listener saw at the time of the call: the
   * listener saves a done task at once, and keeps the moved list to save
   * later.
   */
  datatype Notice =
    | TaskDone(task: Task, seen: TaskData)
    | TaskEdit(task: Task)
    | TaskDeleted(task: Task)
    | TaskMoved(tasks: seq<Task>, seenAll: seq<TaskData>)

  /** What the undo snackbar of a swipe keeps: where the task was and the task itself. */
  datatype PendingDelete = PendingDelete(position: int, task: Task)

  /** The list with the elements at i and j exchanged. */
  function Swap<T>(s: seq<T>, i: int, j: int): seq<T>
    requires 0 <= i < |s| && 0 <= j < |s|
  {
    s[i := s[j]][j := s[i]]
  }

  /** The list without its i-th element. */
  function RemoveAt<T>(s: seq<T>, i: int): seq<T>
    requires 0 <= i < |s|
  {
    s[..i] + s[i + 1..]
  }

  /** The list with x inserted so that it ends up at index i. */
  function InsertAt<T>(s: seq<T>, i: int, x: T): seq<T>
    requires 0 <= i <= |s|
  {
    s[..i] + [x] + s[i..]
  }

  predicate Distinct<T(==)>(s: seq<T>) {
    forall i, j :: 0 <= i < j < |s| ==> s[i] != s[j]
  }

  /** A swap exchanges the two elements, keeps the others, permutes the list and undoes itself. */
  lemma SwapPermutes<T>(s: seq<T>, i: int, j: int)
    requires 0 <= i < |s| && 0 <= j < |s|
    ensures |Swap(s, i, j)| == |s|
    ensures Swap(s, i, j)[i] == s[j] && Swap(s, i, j)[j] == s[i]
    ensures forall k :: 0 <= k < |s| && k != i && k != j ==> Swap(s, i, j)[k] == s[k]
    ensures multiset(Swap(s, i, j)) == multiset(s)
    ensures Swap(Swap(s, i, j), i, j) == s
  {
    SwapMultiset(s, i, j);
  }

  lemma SwapMultiset<T>(s: seq<T>, i: int, j: int)
    requires 0 <= i < |s| && 0 <= j < |s|
    ensures multiset(Swap(s, i, j)) == multiset(s)
  {
    if i != j {
      var t := s[i := s[j]];
      var rest := multiset(s) - multiset{s[i]};
      assert multiset(t) == rest + multiset{s[j]};
      assert t[j] == s[j];
      assert multiset(t[j := s[i]]) == multiset(t) - multiset{s[j]} + multiset{s[i]};
      assert multiset(t) - multiset{s[j]} == rest;
      assert rest + multiset{s[i]} == multiset(s);
    }
  }

  /** Removing shifts every later element one place towards the front. */
  lemma RemoveAtShifts<T>(s: seq<T>, i: int)
    requires 0 <= i < |s|
    ensures |RemoveAt(s, i)| == |s| - 1
    ensures forall k :: 0 <= k < i ==> RemoveAt(s, i)[k] == s[k]
    ensures forall k :: i <= k < |s| - 1 ==> RemoveAt(s, i)[k] == s[k + 1]
    ensures multiset(RemoveAt(s, i)) + multiset{s[i]} == multiset(s)
  {
    assert s == s[..i] + [s[i]] + s[i + 1..];
  }

  /** Inserting shifts every element from i one place towards the back. */
  lemma InsertAtShifts<T>(s: seq<T>, i: int, x: T)
    requires 0 <= i <= |s|
    ensures |InsertAt(s, i, x)| == |s| + 1
    ensures InsertAt(s, i, x)[i] == x
    ensures forall k :: 0 <= k < i ==> InsertAt(s, i, x)[k] == s[k]
    ensures forall k :: i < k <= |s| ==> InsertAt(s, i, x)[k] == s[k - 1]
    ensures multiset(InsertAt(s, i, x)) == multiset(s) + multiset{x}
  {
    assert s == s[..i] + s[i..];
  }

  /** Undoing a removal at the position it happened restores the list. */
  lemma UndoRestores<T>(s: seq<T>, i: int)
    requires 0 <= i < |s|
    ensures InsertAt(RemoveAt(s, i), i, s[i]) == s
  {
    var r := RemoveAt(s, i);
    assert r[..i] == s[..i];
    assert r[i..] == s[i + 1..];
  }

  /** Swaps and removals keep a list free of duplicates, and so does inserting a new element. */
  lemma DistinctPreserved<T>(s: seq<T>, i: int, j: int, x: T)
    requires Distinct(s)
    ensures 0 <= i < |s| && 0 <= j < |s| ==> Distinct(Swap(s, i, j))
    ensures 0 <= i < |s| ==> Distinct(RemoveAt(s, i))
    ensures 0 <= i <= |s| && x !in s ==> Distinct(InsertAt(s, i, x))
  {
    if 0 <= i < |s| {
      RemoveAtShifts(s, i);
      var r := RemoveAt(s, i);
      forall a, b | 0 <= a < b < |r|
        ensures r[a] != r[b]
      {
        var a' := if a < i then a else a + 1;
        var b' := if b < i then b else b + 1;
        assert r[a] == s[a'] && r[b] == s[b'];
      }
    }
    if 0 <= i <= |s| && x !in s {
      InsertAtShifts(s, i, x);
      var r := InsertAt(s, i, x);
      forall a, b | 0 <= a < b < |r|
        ensures r[a] != r[b]
      {
        if a != i && b != i {
          var a' := if a < i then a else a - 1;
          var b' := if b < i then b else b - 1;
          assert r[a] == s[a'] && r[b] == s[b'];
        } else if a == i {
          assert r[b] in s;
        } else {
          assert r[a] in s;
        }
      }
    }
  }

  /**
   * The index of the last occurrence of x in s, -1 when x does not occur:
   * the position a task ends up with when the list is renumbered front to back.
   */
  function LastIndex<T(==)>(s: seq<T>, x: T): (r: int)
    ensures -1 <= r < |s|
    ensures r == -1 <==> x !in s
    ensures 0 <= r ==> s[r] == x
    ensures forall k :: r < k < |s| ==> s[k] != x
    decreases |s|
  {
    if s == [] then -1
    else if s[|s| - 1] == x then |s| - 1
    else LastIndex(s[..|s| - 1], x)
  }

  lemma LastIndexAppend<T>(s: seq<T>, x: T, y: T)
    ensures LastIndex(s + [x], x) == |s|
    ensures y != x ==> LastIndex(s + [x], y) == LastIndex(s, y)
  {
    assert (s + [x])[..|s|] == s;
  }

  /** In a list without duplicates every element's last index is its index. */
  lemma LastIndexDistinct<T>(s: seq<T>, i: int)
    requires Distinct(s) && 0 <= i < |s|
    ensures LastIndex(s, s[i]) == i
  {
  }

  /** Every task's list position is the index it was renumbered to. */
  predicate Numbered(list: seq<Task>)
    reads list
  {
    forall k :: 0 <= k < |list| ==> list[k].listPosition == LastIndex(list, list[k])
  }

  /** In a numbered list without duplicates the positions are the indices. */
  lemma NumberedDistinct(list: seq<Task>)
    requires Numbered(list) && Distinct(list)
    ensures forall k :: 0 <= k < |list| ==> list[k].listPosition == k
  {
    forall k | 0 <= k < |list|
      ensures list[k].listPosition == k
    {
      LastIndexDistinct(list, k);
    }
  }

  /**
   * The loop of updateTaskPositions: sets every task's list position to its
   * index, front to back. A task listed twice keeps the later index; nothing
   * else of any task changes.
   */
  method Renumber(list: seq<Task>)
    modifies list
    ensures Numbered(list)
    ensures forall k :: 0 <= k < |list| ==>
      list[k].Value() == old(list[k].Value()).(listPosition := list[k].listPosition)
  {
    for i := 0 to |list|
      invariant forall k :: 0 <= k < i ==> list[k].listPosition == LastIndex(list[..i], list[k])
      invariant forall k :: 0 <= k < |list| ==>
        list[k].Value() == old(list[k].Value()).(listPosition := list[k].listPosition)
    {
      list[i].SetListPosition(i);
      assert list[..i + 1] == list[..i] + [list[i]];
      forall k | 0 <= k < i + 1
        ensures list[k].listPosition == LastIndex(list[..i + 1], list[k])
      {
        LastIndexAppend(list[..i], list[i], list[k]);
      }
    }
    assert list[..|list|] == list;
  }

  /** The list screen. */
  class TasksFragment {
    /** The tasks shown, in display order. */
    var tasks: seq<Task>
    /** Whether the hosting activity is attached as the listener. */
    var listenerAttached: bool
    /** The calls made on the listener, oldest first. */
    var notices: seq<Notice>

    constructor ()
      ensures tasks == [] && !listenerAttached && notices == []
    {
      tasks := [];
      listenerAttached := false;
      notices := [];
    }

    method OnAttach()
      modifies this
      ensures listenerAttached
      ensures tasks == old(tasks) && notices == old(notices)
    {
      listenerAttached := true;
    }

    method OnDetach()
      modifies this
      ensures !listenerAttached
      ensures tasks == old(tasks) && notices == old(notices)
    {
      listenerAttached := false;
    }

    /**
     * Sets the done flag of the checked task, then reports it to the
     * listener, which thus sees the task already marked.
     */
    method OnItemChecked(task: Task, isChecked: bool)
      requires listenerAttached
      modifies this, task
      ensures task.Value() == old(task.Value()).(done := isChecked)
      ensures tasks == old(tasks) && listenerAttached
      ensures notices == old(notices) + [TaskDone(task, task.Value())]
    {
      task.SetDone(isChecked);
      notices := notices + [TaskDone(task, task.Value())];
    }

    /** Reports a click on a task's title to the listener. */
    method OnTitleClicked(task: Task)
      requires listenerAttached
      modifies this
      ensures tasks == old(tasks) && listenerAttached
      ensures notices == old(notices) + [TaskEdit(task)]
    {
      notices := notices + [TaskEdit(task)];
    }

    /** Replaces the shown tasks by the passed ones, in their order. */
    method UpdateContent(newTasks: seq<Task>)
      modifies this
      ensures tasks == newTasks
      ensures listenerAttached == old(listenerAttached) && notices == old(notices)
    {
      tasks := [];
      tasks := tasks + newTasks;
    }

    /**
     * Sets every task's list position to its index, then reports the list to
     * the listener, which thus sees the new positions.
     */
    method UpdateTaskPositions()
      requires listenerAttached
      modifies this, tasks
      ensures tasks == old(tasks) && listenerAttached
      ensures Numbered(tasks)
      ensures Distinct(tasks) ==> forall k :: 0 <= k < |tasks| ==> tasks[k].listPosition == k
      ensures forall k :: 0 <= k < |tasks| ==>
        tasks[k].Value() == old(tasks[k].Value()).(listPosition := tasks[k].listPosition)
      ensures notices == old(notices) + [TaskMoved(tasks, Values(tasks))]
    {
      var list := tasks;
      Renumber(list);
      if Distinct(list) {
        NumberedDistinct(list);
      }
      label Renumbered:
      notices := notices + [TaskMoved(list, Values(list))];
      assert unchanged@Renumbered(list);
    }

    /** A drag over another task exchanges the two in the list. */
    method OnMove(fromPosition: int, toPosition: int) returns (moved: bool)
      requires 0 <= fromPosition < |tasks| && 0 <= toPosition < |tasks|
      modifies this
      ensures moved
      ensures tasks == Swap(old(tasks), fromPosition, toPosition)
      ensures listenerAttached == old(listenerAttached) && notices == old(notices)
    {
      tasks := Swap(tasks, fromPosition, toPosition);
      moved := true;
    }

    /** The end of a drag: the list positions are renumbered and reported. */
    method OnMoved()
      requires listenerAttached
      modifies this, tasks
      ensures tasks == old(tasks) && listenerAttached
      ensures Numbered(tasks)
      ensures forall k :: 0 <= k < |tasks| ==>
        tasks[k].Value() == old(tasks[k].Value()).(listPosition := tasks[k].listPosition)
      ensures notices == old(notices) + [TaskMoved(tasks, Values(tasks))]
    {
      UpdateTaskPositions();
    }

    /**
     * A swipe removes the task from the list and hands the position and the
     * task to the undo snackbar.
     */
    method OnSwiped(position: int) returns (pending: PendingDelete)
      requires 0 <= position < |tasks|
      modifies this
      ensures pending == PendingDelete(position, old(tasks)[position])
      ensures tasks == RemoveAt(old(tasks), position)
      ensures listenerAttached == old(listenerAttached) && notices == old(notices)
    {
      var deletedTask := tasks[position];
      tasks := tasks[..position] + tasks[position + 1..];
      pending := PendingDelete(position, deletedTask);
    }

    /** The undo action: the task goes back to the position it was removed from. */
    method OnUndo(pending: PendingDelete)
      requires 0 <= pending.position <= |tasks|
      modifies this
      ensures tasks == InsertAt(old(tasks), pending.position, pending.task)
      ensures listenerAttached == old(listenerAttached) && notices == old(notices)
    {
      tasks := tasks[..pending.position] + [pending.task] + tasks[pending.position..];
    }

    /**
     * The undo snackbar went away: unless it was by its undo action, and as
     * long as a listener is attached, the task is reported deleted and the
     * remaining list is renumbered; otherwise nothing happens.
     */
    method OnDismissed(pending: PendingDelete, event: int)
      modifies this, tasks
      ensures tasks == old(tasks) && listenerAttached == old(listenerAttached)
      ensures forall k :: 0 <= k < |tasks| ==>
        tasks[k].Value() == old(tasks[k].Value()).(listPosition := tasks[k].listPosition)
      ensures listenerAttached && event != DISMISS_EVENT_ACTION ==>
        Numbered(tasks) && notices == old(notices) + [TaskDeleted(pending.task), TaskMoved(tasks, Values(tasks))]
      ensures !listenerAttached || event == DISMISS_EVENT_ACTION ==>
        notices == old(notices) && forall k :: 0 <= k < |tasks| ==> tasks[k].Value() == old(tasks[k].Value())
    {
      if listenerAttached && event != DISMISS_EVENT_ACTION {
        notices := notices + [TaskDeleted(pending.task)];
        UpdateTaskPositions();
      }
    }
  }
}
