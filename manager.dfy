/**
 * The TaskFlow controller: the task collection and the view settings it owns,
 * and the handlers that change them (submit, delete, begin edit, toggle,
 * calendar drop, filter and sort selection), together with the rendering
 * pipeline and the two due-date sweeps that only read them.
 */
module Manager {
  import opened Tasks
  import opened Store
  import opened View
  import opened Sweeps

  /** What a form submit did: rejected for a past due date, updated the edited task, or added one. */
  datatype SubmitOutcome = PastDueDate | Updated | Added

  /**
   * The array after the shifting loop of an insertion: the tasks before `j`
   * untouched, `x` at `j`, the rest of the prefix one place right.
   */
  lemma ShiftedIsInsert(cur: seq<Task>, prefix: seq<Task>, rest: seq<Task>, j: nat, x: Task, key: Criterion)
    requires j <= |prefix| && |cur| == |prefix| + 1 + |rest|
    requires forall k :: 0 <= k < j ==> cur[k] == prefix[k]
    requires cur[j] == x
    requires forall k :: j < k <= |prefix| ==> cur[k] == prefix[k - 1]
    requires forall k :: |prefix| < k < |cur| ==> cur[k] == rest[k - |prefix| - 1]
    requires InsertPos(prefix, x, key) == j
    ensures cur == Insert(prefix, x, key) + rest
  {
  }

  class TaskManager {
    var tasks: seq<Task>
    var currentFilter: string
    var currentSort: string
    /** The id of the task being edited; `None` is the source's `null`. */
    var editingTaskId: Option<string>

    /** Starts from the stored collection, showing all tasks sorted by priority, editing nothing. */
    constructor (stored: seq<Task>)
      ensures tasks == stored
      ensures currentFilter == "all" && currentSort == "priority" && editingTaskId == None
    {
      tasks := stored;
      currentFilter := "all";
      currentSort := "priority";
      editingTaskId := None;
    }

    /** The truth value of `editingTaskId`: set, and not the empty string. */
    predicate Editing()
      reads this
    {
      editingTaskId.Some? && editingTaskId.value != ""
    }

    /** A filter button: only the filter changes. */
    method SetFilter(filter: string)
      modifies this
      ensures currentFilter == filter
      ensures tasks == old(tasks) && currentSort == old(currentSort) && editingTaskId == old(editingTaskId)
    {
      currentFilter := filter;
    }

    /** The sort selector: only the sort criterion changes. */
    method SetSort(criteria: string)
      modifies this
      ensures currentSort == criteria
      ensures tasks == old(tasks) && currentFilter == old(currentFilter) && editingTaskId == old(editingTaskId)
    {
      currentSort := criteria;
    }

    /**
     * The form submit. A due date before today's midnight is rejected whether
     * adding or editing. Otherwise, while editing, the edited task takes the
     * four form fields and editing ends; else a new open task with the fresh
     * id is appended. The edited id must name a task: the source dereferences
     * the lookup without checking it.
     */
    method SubmitTask(title: string, description: string, dueDate: Time, priority: Priority,
                      todayMidnight: Time, freshId: string) returns (outcome: SubmitOutcome)
      requires dueDate >= todayMidnight && Editing() ==> HasId(tasks, editingTaskId.value)
      modifies this
      ensures currentFilter == old(currentFilter) && currentSort == old(currentSort)
      ensures dueDate < todayMidnight ==>
        outcome == PastDueDate && tasks == old(tasks) && editingTaskId == old(editingTaskId)
      ensures dueDate >= todayMidnight && old(Editing()) ==>
        outcome == Updated && editingTaskId == None &&
        tasks == Edited(old(tasks), old(editingTaskId).value, title, description, dueDate, priority)
      ensures dueDate >= todayMidnight && !old(Editing()) ==>
        outcome == Added && editingTaskId == old(editingTaskId) &&
        tasks == old(tasks) + [NewTask(freshId, title, description, dueDate, priority)]
      ensures old(UniqueIds(tasks)) && !old(HasId(tasks, freshId)) ==> UniqueIds(tasks)
    {
      if dueDate < todayMidnight {
        return PastDueDate;
      }
      if Editing() {
        EditKeepsIdsAndCompletion(tasks, editingTaskId.value, title, description, dueDate, priority);
        tasks := Edited(tasks, editingTaskId.value, title, description, dueDate, priority);
        editingTaskId := None;
        outcome := Updated;
      } else {
        var t := NewTask(freshId, title, description, dueDate, priority);
        if UniqueIds(tasks) && !HasId(tasks, freshId) {
          AddKeepsUniqueIds(tasks, t);
        }
        tasks := tasks + [t];
        outcome := Added;
      }
    }

    /**
     * The delete button: every task with that id is dropped. The edited id is
     * left as it was, so deleting the task being edited leaves an edit of a
     * task that no longer exists, and every later submit with a valid date
     * falls outside `SubmitTask`'s precondition (the source throws there).
     */
    method DeleteTask(id: string)
      modifies this
      ensures tasks == Deleted(old(tasks), id)
      ensures currentFilter == old(currentFilter) && currentSort == old(currentSort)
      ensures editingTaskId == old(editingTaskId)
      ensures old(Editing()) && old(editingTaskId).value == id ==> Editing() && !HasId(tasks, editingTaskId.value)
    {
      DeleteRemovesExactly(tasks, id);
      tasks := Deleted(tasks, id);
    }

    /**
     * The edit button: editing starts for `id`, and the task found, if any,
     * is returned to fill the form.
     */
    method BeginEdit(id: string) returns (task: Option<Task>)
      modifies this
      ensures editingTaskId == Some(id)
      ensures tasks == old(tasks) && currentFilter == old(currentFilter) && currentSort == old(currentSort)
      ensures task.Some? <==> HasId(tasks, id)
      ensures task.Some? ==> task.value == tasks[FindIndex(tasks, id).value]
    {
      editingTaskId := Some(id);
      match FindIndex(tasks, id)
      case None => task := None;
      case Some(k) => task := Some(tasks[k]);
    }

    /** The completion checkbox: the task's flag flips. The id must name a task. */
    method ToggleComplete(id: string)
      requires HasId(tasks, id)
      modifies this
      ensures tasks == Toggled(old(tasks), id)
      ensures currentFilter == old(currentFilter) && currentSort == old(currentSort)
      ensures editingTaskId == old(editingTaskId)
    {
      tasks := Toggled(tasks, id);
    }

    /**
     * A calendar drop: the task with the dropped id takes the new due date, and
     * an id no task has changes nothing. Both the event-move and the external
     * drop callbacks apply this update; a list row carries no id, so a row
     * dropped from the list always arrives with an unknown id.
     */
    method MoveDueDate(id: string, newDueDate: Time)
      modifies this
      ensures tasks == Moved(old(tasks), id, newDueDate)
      ensures currentFilter == old(currentFilter) && currentSort == old(currentSort)
      ensures editingTaskId == old(editingTaskId)
    {
      tasks := Moved(tasks, id, newDueDate);
    }

    /**
     * One step of the sort: `a[i]` moves left past every task of the sorted
     * prefix `a[..i]` that compares greater than it.
     */
    method InsertAt(a: array<Task>, i: nat, key: Criterion, ghost prefix: seq<Task>, ghost rest: seq<Task>)
      requires |prefix| == i < a.Length
      requires a[..] == prefix + [a[i]] + rest
      modifies a
      ensures a[..] == Insert(prefix, old(a[i]), key) + rest
    {
      var x := a[i];
      var j := i;
      while j > 0 && Compare(a[j - 1], x, key) > 0
        invariant 0 <= j <= i
        invariant forall k :: 0 <= k < j ==> a[k] == prefix[k]
        invariant forall k :: j < k <= i ==> a[k] == prefix[k - 1]
        invariant forall k :: i < k < a.Length ==> a[k] == rest[k - i - 1]
        invariant forall k :: j <= k < i ==> Compare(prefix[k], x, key) > 0
      {
        a[j] := a[j - 1];
        j := j - 1;
      }
      a[j] := x;
      InsertPosUnique(prefix, j, x, key);
      ShiftedIsInsert(a[..], prefix, rest, j, x, key);
    }

    /** The in-place sort of the filtered copy with the current comparator. */
    method SortTasks(a: array<Task>)
      modifies a
      ensures a[..] == SortBy(old(a[..]), CriterionOf(currentSort))
    {
      ghost var input := a[..];
      var key := CriterionOf(currentSort);
      var i := 0;
      while i < a.Length
        invariant 0 <= i <= a.Length
        invariant a[..] == SortBy(input[..i], key) + input[i..]
      {
        ghost var prefix := SortBy(input[..i], key);
        SplitAt(prefix, input, i);
        assert a[i] == input[i];
        InsertAt(a, i, key, prefix, input[i + 1..]);
        SortByStep(input, i, key);
        i := i + 1;
      }
      assert input[..a.Length] == input;
    }

    /** Rendering: the filtered copy, sorted; the collection itself is left as it is. */
    method RenderTasks() returns (view: seq<Task>)
      ensures view == VisibleTasks(tasks, currentFilter, currentSort)
    {
      var filtered := FilterTasks(tasks, currentFilter);
      var a := new Task[|filtered|](i requires 0 <= i < |filtered| => filtered[i]);
      assert a[..] == filtered;
      SortTasks(a);
      view := a[..];
    }

    /** The overdue check: one alert per open task due before today's midnight, in collection order. */
    method CheckOverdueTasks(todayMidnight: Time) returns (alerted: seq<Task>)
      ensures alerted == Overdue(tasks, todayMidnight)
    {
      alerted := [];
      for i := 0 to |tasks|
        invariant alerted == Overdue(tasks[..i], todayMidnight)
      {
        assert tasks[..i + 1][..i] == tasks[..i];
        if tasks[i].dueDate < todayMidnight && !tasks[i].completed {
          alerted := alerted + [tasks[i]];
        }
      }
      assert tasks[..|tasks|] == tasks;
    }

    /** The due-soon check: one notification per open task due within a day after now, in collection order. */
    method CheckDueSoonTasks(now: Time) returns (notified: seq<Task>)
      ensures notified == DueSoon(tasks, now)
    {
      var tomorrow := now + DayMs;
      notified := [];
      for i := 0 to |tasks|
        invariant notified == DueSoon(tasks[..i], now)
      {
        assert tasks[..i + 1][..i] == tasks[..i];
        if tasks[i].dueDate > now && tasks[i].dueDate <= tomorrow && !tasks[i].completed {
          notified := notified + [tasks[i]];
        }
      }
      assert tasks[..|tasks|] == tasks;
    }
  }
}
