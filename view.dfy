/**
 * The list view the controller renders: the tasks passing the current filter,
 * ordered by the two-key comparator of the current sort. The ordering is
 * specified by a stable insertion sort (`SortBy`); any stable sort with this
 * comparator yields the same sequence.
 */
module View {
  import opened Tasks

  // ---------------------------------------------------------------- filter

  /** Whether a task passes a filter; a filter other than `completed` or `pending` passes all. */
  predicate Shown(t: Task, filter: string)
  {
    if filter == "completed" then t.completed
    else if filter == "pending" then !t.completed
    else true
  }

  function ShownUnder(filter: string): Task -> bool
  {
    (t: Task) => Shown(t, filter)
  }

  /** The filter step of rendering: the passing tasks, in collection order. */
  function FilterTasks(s: seq<Task>, filter: string): (r: seq<Task>)
  {
    Select(s, ShownUnder(filter))
  }

  /** `completed` keeps exactly the completed tasks, `pending` exactly the others, anything else keeps all. */
  lemma FilterExact(s: seq<Task>, filter: string, t: Task)
    ensures filter == "completed" ==> (t in FilterTasks(s, filter) <==> t in s && t.completed)
    ensures filter == "pending" ==> (t in FilterTasks(s, filter) <==> t in s && !t.completed)
    ensures filter != "completed" && filter != "pending" ==> FilterTasks(s, filter) == s
  {
    SelectMember(s, ShownUnder(filter), t);
    if filter != "completed" && filter != "pending" {
      SelectKeepsAll(s, ShownUnder(filter));
    }
  }

  /** Filtering distributes over concatenation: relative order is preserved. */
  lemma FilterKeepsOrder(s1: seq<Task>, s2: seq<Task>, filter: string)
    ensures FilterTasks(s1 + s2, filter) == FilterTasks(s1, filter) + FilterTasks(s2, filter)
  {
    SelectConcat(s1, s2, ShownUnder(filter));
  }

  /** The `completed` and `pending` views split the collection: together they hold every task once. */
  lemma FilterPartition(s: seq<Task>)
    ensures multiset(FilterTasks(s, "completed")) + multiset(FilterTasks(s, "pending")) == multiset(s)
  {
    forall t
      ensures (multiset(FilterTasks(s, "completed")) + multiset(FilterTasks(s, "pending")))[t] == multiset(s)[t]
    {
      SelectCount(s, ShownUnder("completed"), t);
      SelectCount(s, ShownUnder("pending"), t);
    }
  }

  // ---------------------------------------------------------------- comparator

  /**
   * A sort criterion as the comparator reads it: `priority`, `dueDate`, or
   * any other string, which compares every pair equal.
   */
  datatype Criterion = ByPriority | ByDueDate | Unknown

  function CriterionOf(name: string): (c: Criterion)
    ensures c == ByPriority <==> name == "priority"
    ensures c == ByDueDate <==> name == "dueDate"
  {
    if name == "priority" then ByPriority
    else if name == "dueDate" then ByDueDate
    else Unknown
  }

  /** One criterion of the comparator; negative means `a` is listed first. */
  function CompareBy(a: Task, b: Task, criterion: Criterion): int
  {
    match criterion
    case ByPriority => Rank(b.priority) - Rank(a.priority)
    case ByDueDate => a.dueDate - b.dueDate
    case Unknown => 0
  }

  /**
   * By priority, higher rank first; by due date, earlier first; any other
   * criterion compares equal.
   */
  lemma CompareByMeaning(a: Task, b: Task, criterion: Criterion)
    ensures criterion == ByPriority ==> (CompareBy(a, b, criterion) < 0 <==> Rank(a.priority) > Rank(b.priority))
    ensures criterion == ByPriority ==> (CompareBy(a, b, criterion) == 0 <==> a.priority == b.priority)
    ensures criterion == ByDueDate ==> (CompareBy(a, b, criterion) < 0 <==> a.dueDate < b.dueDate)
    ensures criterion == ByDueDate ==> (CompareBy(a, b, criterion) == 0 <==> a.dueDate == b.dueDate)
    ensures criterion == Unknown ==> CompareBy(a, b, criterion) == 0
  {
  }

  /** The tie-break criterion: due date under a priority sort, priority under any other. */
  function Secondary(primary: Criterion): Criterion
  {
    if primary == ByPriority then ByDueDate else ByPriority
  }

  /**
   * The sort comparator: the current sort's criterion, and on a tie the other
   * one. Negative means `a` is listed before `b`.
   */
  function Compare(a: Task, b: Task, key: Criterion): int
  {
    var primary := CompareBy(a, b, key);
    if primary == 0 then CompareBy(a, b, Secondary(key)) else primary
  }

  /**
   * Under a priority sort the higher priority comes first and equal priorities
   * go by earlier due date; under a due-date sort the earlier date comes first
   * and equal dates go by higher priority; under an unknown criterion only
   * priority orders. Tasks compare equal exactly when both keys agree (only
   * priority, under an unknown criterion).
   */
  lemma CompareMeaning(a: Task, b: Task, key: Criterion)
    ensures key == ByPriority ==>
      (Compare(a, b, key) < 0 <==> Rank(a.priority) > Rank(b.priority) || (a.priority == b.priority && a.dueDate < b.dueDate))
    ensures key == ByDueDate ==>
      (Compare(a, b, key) < 0 <==> a.dueDate < b.dueDate || (a.dueDate == b.dueDate && Rank(a.priority) > Rank(b.priority)))
    ensures key == Unknown ==> (Compare(a, b, key) < 0 <==> Rank(a.priority) > Rank(b.priority))
    ensures Compare(a, b, key) == 0 <==> a.priority == b.priority && (key != Unknown ==> a.dueDate == b.dueDate)
  {
    CompareByMeaning(a, b, key);
    CompareByMeaning(a, b, Secondary(key));
  }

  /** The comparator is antisymmetric and transitive: a total preorder. */
  lemma CompareIsTotalPreorder(a: Task, b: Task, c: Task, key: Criterion)
    ensures Compare(a, b, key) == -Compare(b, a, key)
    ensures Compare(a, b, key) <= 0 && Compare(b, c, key) <= 0 ==> Compare(a, c, key) <= 0
    ensures Compare(a, c, key) == 0 && Compare(b, c, key) == 0 ==> Compare(a, b, key) == 0
  {
    CompareMeaning(a, b, key);
    CompareMeaning(b, a, key);
    CompareMeaning(b, c, key);
    CompareMeaning(a, c, key);
  }

  /** Every pair of a sequence is in comparator order. */
  predicate Sorted(s: seq<Task>, key: Criterion)
  {
    forall i, j :: 0 <= i < j < |s| ==> Compare(s[i], s[j], key) <= 0
  }

  // ---------------------------------------------------------------- sort

  /**
   * Where a stable insertion puts `x` into `s`: after the last task that does
   * not compare greater than `x`, scanning back from the end.
   */
  function InsertPos(s: seq<Task>, x: Task, key: Criterion): (p: nat)
    ensures p <= |s|
  {
    if s == [] || Compare(s[|s| - 1], x, key) <= 0 then |s|
    else InsertPos(s[..|s| - 1], x, key)
  }

  /** Every task after the insertion point compares greater than `x`, the one before it does not. */
  lemma {:induction false} InsertPosBounds(s: seq<Task>, x: Task, key: Criterion)
    ensures var p := InsertPos(s, x, key);
      (p == 0 || Compare(s[p - 1], x, key) <= 0) &&
      forall k :: p <= k < |s| ==> Compare(s[k], x, key) > 0
  {
    if s != [] && Compare(s[|s| - 1], x, key) > 0 {
      InsertPosBounds(s[..|s| - 1], x, key);
    }
  }

  /** Those two facts pin the insertion point down. */
  lemma {:induction false} InsertPosUnique(s: seq<Task>, j: nat, x: Task, key: Criterion)
    requires j <= |s| && (j == 0 || Compare(s[j - 1], x, key) <= 0)
    requires forall k :: j <= k < |s| ==> Compare(s[k], x, key) > 0
    ensures InsertPos(s, x, key) == j
  {
    if j < |s| {
      InsertPosUnique(s[..|s| - 1], j, x, key);
    }
  }

  /** `s` with `x` inserted at its insertion point. */
  function Insert(s: seq<Task>, x: Task, key: Criterion): (r: seq<Task>)
    ensures |r| == |s| + 1
  {
    var p := InsertPos(s, x, key);
    s[..p] + [x] + s[p..]
  }

  /** Inserting adds exactly `x`. */
  lemma InsertPermutes(s: seq<Task>, x: Task, key: Criterion)
    ensures multiset(Insert(s, x, key)) == multiset(s) + multiset{x}
  {
    var p := InsertPos(s, x, key);
    assert s == s[..p] + s[p..];
  }

  /** The sorted copy of `s`: each task inserted, in collection order, into the sorted prefix. */
  function SortBy(s: seq<Task>, key: Criterion): (r: seq<Task>)
    ensures |r| == |s|
  {
    if s == [] then []
    else Insert(SortBy(s[..|s| - 1], key), s[|s| - 1], key)
  }

  /** Sorting one more task of the input inserts it into the sorted prefix. */
  lemma SortByStep(s: seq<Task>, i: nat, key: Criterion)
    requires i < |s|
    ensures SortBy(s[..i + 1], key) == Insert(SortBy(s[..i], key), s[i], key)
  {
    assert s[..i + 1][..i] == s[..i];
  }

  /** Where each task of `s` lands once `x` is inserted. */
  lemma InsertIndex(s: seq<Task>, x: Task, key: Criterion, i: nat)
    requires i <= |s|
    ensures var p := InsertPos(s, x, key);
      Insert(s, x, key)[i] == if i < p then s[i] else if i == p then x else s[i - 1]
  {
  }

  /** Any two positions of an insertion into a sorted sequence are in comparator order. */
  lemma InsertPairOrdered(s: seq<Task>, x: Task, key: Criterion, i: nat, k: nat)
    requires Sorted(s, key) && i < k <= |s|
    ensures Compare(Insert(s, x, key)[i], Insert(s, x, key)[k], key) <= 0
  {
    var p := InsertPos(s, x, key);
    InsertPosBounds(s, x, key);
    InsertIndex(s, x, key, i);
    InsertIndex(s, x, key, k);
    if k == p {
      CompareIsTotalPreorder(s[i], s[p - 1], x, key);
    } else if i == p {
      CompareIsTotalPreorder(x, s[k - 1], x, key);
    }
  }

  /** Inserting into a sorted sequence keeps it sorted. */
  lemma InsertSorted(s: seq<Task>, x: Task, key: Criterion)
    requires Sorted(s, key)
    ensures Sorted(Insert(s, x, key), key)
  {
    forall i, k | 0 <= i < k < |s| + 1 ensures Compare(Insert(s, x, key)[i], Insert(s, x, key)[k], key) <= 0 {
      InsertPairOrdered(s, x, key, i, k);
    }
  }

  /** The sorted copy is a permutation of the input in comparator order. */
  lemma {:induction false} SortBySorted(s: seq<Task>, key: Criterion)
    ensures Sorted(SortBy(s, key), key)
    ensures multiset(SortBy(s, key)) == multiset(s)
  {
    if s != [] {
      var init := s[..|s| - 1];
      SortBySorted(init, key);
      InsertSorted(SortBy(init, key), s[|s| - 1], key);
      InsertPermutes(SortBy(init, key), s[|s| - 1], key);
      assert s == init + [s[|s| - 1]];
    }
  }

  /** The tasks the comparator cannot tell apart from `pivot`. */
  function TiesWith(pivot: Task, key: Criterion): Task -> bool
  {
    (t: Task) => Compare(t, pivot, key) == 0
  }

  function Ties(s: seq<Task>, pivot: Task, key: Criterion): (r: seq<Task>)
  {
    Select(s, TiesWith(pivot, key))
  }

  /** No task after the insertion point ties with a pivot that `x` ties with. */
  lemma NoTiesAfterInsertPos(s: seq<Task>, x: Task, pivot: Task, key: Criterion)
    requires Compare(x, pivot, key) == 0
    ensures Ties(s[InsertPos(s, x, key)..], pivot, key) == []
  {
    var back := s[InsertPos(s, x, key)..];
    InsertPosBounds(s, x, key);
    forall k | 0 <= k < |back| ensures !TiesWith(pivot, key)(back[k]) {
      CompareIsTotalPreorder(back[k], x, pivot, key);
    }
    SelectKeepsNone(back, TiesWith(pivot, key));
  }

  /** Inserting `x` adds it to the ties of `pivot` after all the ties already there. */
  lemma InsertTies(s: seq<Task>, x: Task, pivot: Task, key: Criterion)
    ensures Ties(Insert(s, x, key), pivot, key) == Ties(s, pivot, key) + Ties([x], pivot, key)
  {
    var keep := TiesWith(pivot, key);
    var p := InsertPos(s, x, key);
    var front, back := s[..p], s[p..];
    assert s == front + back;
    SelectConcat(front, back, keep);
    SelectConcat(front + [x], back, keep);
    SelectConcat(front, [x], keep);
    if keep(x) {
      NoTiesAfterInsertPos(s, x, pivot, key);
    } else {
      assert Select([x], keep) == [];
    }
  }

  /** Stability: tasks that compare equal keep their collection order in the sorted copy. */
  lemma {:induction false} SortByStable(s: seq<Task>, pivot: Task, key: Criterion)
    ensures Ties(SortBy(s, key), pivot, key) == Ties(s, pivot, key)
  {
    if s != [] {
      var init, last := s[..|s| - 1], s[|s| - 1];
      SortByStable(init, pivot, key);
      InsertTies(SortBy(init, key), last, pivot, key);
      SelectConcat(init, [last], TiesWith(pivot, key));
      assert s == init + [last];
    }
  }

  /** What the list shows: the filtered tasks, sorted. */
  function VisibleTasks(s: seq<Task>, filter: string, currentSort: string): (r: seq<Task>)
  {
    SortBy(FilterTasks(s, filter), CriterionOf(currentSort))
  }

  /** The shown list holds exactly the filtered tasks, each as often as in the collection, in comparator order. */
  lemma VisibleTasksSpec(s: seq<Task>, filter: string, currentSort: string)
    ensures Sorted(VisibleTasks(s, filter, currentSort), CriterionOf(currentSort))
    ensures forall t :: multiset(VisibleTasks(s, filter, currentSort))[t] == if Shown(t, filter) then multiset(s)[t] else 0
  {
    SortBySorted(FilterTasks(s, filter), CriterionOf(currentSort));
    forall t ensures multiset(VisibleTasks(s, filter, currentSort))[t] == if Shown(t, filter) then multiset(s)[t] else 0 {
      SelectCount(s, ShownUnder(filter), t);
    }
  }

  /** Example: two high-priority tasks by earliest due date, then the low one. */
  lemma PrioritySortExample()
    ensures var a := Task("A", "", "", 10, High, false);
      var b := Task("B", "", "", 5, High, false);
      var c := Task("C", "", "", 1, Low, false);
      SortBy([a, b, c], ByPriority) == [b, a, c]
  {
    var a := Task("A", "", "", 10, High, false);
    var b := Task("B", "", "", 5, High, false);
    var c := Task("C", "", "", 1, Low, false);
    assert [a, b, c][..2] == [a, b];
    assert [a, b][..1] == [a];
    assert [a][..0] == [];
    assert SortBy([a], ByPriority) == [a];
    assert SortBy([a, b], ByPriority) == [b, a];
  }
}
