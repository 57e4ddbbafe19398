/**
 * The task record of the TaskFlow list, the order-preserving selection that
 * every `Array.prototype.filter` in the controller performs, the lookup of a
 * task by id (`Array.prototype.find`), and the priority lookup tables.
 */
module Tasks {

  datatype Option<T> = None | Some(value: T)

  /** The three priorities the form offers. */
  datatype Priority = Low | Medium | High

  /** Times are millisecond timestamps, as `Date` values compare. */
  type Time = int

  /** One day in milliseconds: the step `setDate(getDate() + 1)` takes. */
  const DayMs: int := 86_400_000

  datatype Task = Task(
    id: string,
    title: string,
    description: string,
    dueDate: Time,
    priority: Priority,
    completed: bool)

  /** The string a task record stores for its priority. */
  function PriorityName(p: Priority): string
  {
    match p
    case Low => "low"
    case Medium => "medium"
    case High => "high"
  }

  predicate IsPriorityName(name: string)
  {
    name == "low" || name == "medium" || name == "high"
  }

  /** The rank used by the priority comparator: high 3, medium 2, low 1. */
  function Rank(p: Priority): (r: int)
    ensures 1 <= r <= 3
    ensures p == High <==> r == 3
    ensures p == Low <==> r == 1
  {
    match p
    case Low => 1
    case Medium => 2
    case High => 3
  }

  const FallbackColor: string := "#6c757d"

  /** Calendar colour of a priority name; any other name gets gray. */
  function PriorityColor(name: string): (c: string)
    ensures c == FallbackColor <==> !IsPriorityName(name)
    ensures name == "low" ==> c == "#28a745"
    ensures name == "medium" ==> c == "#ffc107"
    ensures name == "high" ==> c == "#dc3545"
  {
    if name == "low" then "#28a745"
    else if name == "medium" then "#ffc107"
    else if name == "high" then "#dc3545"
    else FallbackColor
  }

  /** Display label of a priority name; any other name reads as `Low`. */
  function PriorityLabel(name: string): (l: string)
    ensures l == "Low" <==> name == "low" || !IsPriorityName(name)
    ensures name == "medium" ==> l == "Medium"
    ensures name == "high" ==> l == "High"
  {
    if name == "low" then "Low"
    else if name == "medium" then "Medium"
    else if name == "high" then "High"
    else "Low"
  }

  /** A stored priority never reaches either fallback, and the three colours differ. */
  lemma StoredPriorityLookups(p: Priority, q: Priority)
    ensures PriorityColor(PriorityName(p)) != FallbackColor
    ensures PriorityLabel(PriorityName(p)) == "Low" <==> p == Low
    ensures p != q ==> PriorityColor(PriorityName(p)) != PriorityColor(PriorityName(q))
  {
  }

  /**
   * The elements of `s` that satisfy `keep`, in their original order: what
   * `s.filter(keep)` returns.
   */
  function Select(s: seq<Task>, keep: Task -> bool): (r: seq<Task>)
    ensures |r| <= |s|
  {
    if s == [] then []
    else
      var last := s[|s| - 1];
      Select(s[..|s| - 1], keep) + (if keep(last) then [last] else [])
  }

  /** Selection distributes over concatenation, so it keeps relative order. */
  lemma {:induction false} SelectConcat(s1: seq<Task>, s2: seq<Task>, keep: Task -> bool)
    ensures Select(s1 + s2, keep) == Select(s1, keep) + Select(s2, keep)
  {
    if s2 == [] {
      assert s1 + s2 == s1;
    } else {
      var init := s2[..|s2| - 1];
      assert (s1 + s2)[..|s1 + s2| - 1] == s1 + init;
      SelectConcat(s1, init, keep);
    }
  }

  /** Every occurrence of a kept task survives, every other one is dropped. */
  lemma {:induction false} SelectCount(s: seq<Task>, keep: Task -> bool, t: Task)
    ensures multiset(Select(s, keep))[t] == if keep(t) then multiset(s)[t] else 0
  {
    if s != [] {
      var init := s[..|s| - 1];
      assert s == init + [s[|s| - 1]];
      SelectCount(init, keep, t);
    }
  }

  /** Membership in a selection, both directions. */
  lemma SelectMember(s: seq<Task>, keep: Task -> bool, t: Task)
    ensures t in Select(s, keep) <==> t in s && keep(t)
  {
    SelectCount(s, keep, t);
    assert t in Select(s, keep) <==> multiset(Select(s, keep))[t] > 0;
    assert t in s <==> multiset(s)[t] > 0;
  }

  /** A selection that rejects nothing in `s` returns `s` itself. */
  lemma {:induction false} SelectKeepsAll(s: seq<Task>, keep: Task -> bool)
    requires forall i :: 0 <= i < |s| ==> keep(s[i])
    ensures Select(s, keep) == s
  {
    if s != [] {
      var init := s[..|s| - 1];
      SelectKeepsAll(init, keep);
      assert init + [s[|s| - 1]] == s;
    }
  }

  /** A selection that keeps nothing in `s` is empty. */
  lemma {:induction false} SelectKeepsNone(s: seq<Task>, keep: Task -> bool)
    requires forall i :: 0 <= i < |s| ==> !keep(s[i])
    ensures Select(s, keep) == []
  {
    if s != [] {
      SelectKeepsNone(s[..|s| - 1], keep);
    }
  }

  /** A suffix splits into its first task and the rest, after any prefix. */
  lemma SplitAt(prefix: seq<Task>, s: seq<Task>, i: nat)
    requires i < |s|
    ensures prefix + s[i..] == prefix + [s[i]] + s[i + 1..]
  {
    assert s[i..] == [s[i]] + s[i + 1..];
  }

  /**
   * The index of the first task whose id is `id`, which is the task
   * `tasks.find(t => t.id === id)` returns; `None` when no task has that id.
   */
  function FindIndex(s: seq<Task>, id: string): (r: Option<nat>)
    ensures r.Some? ==> r.value < |s| && s[r.value].id == id
    ensures r.Some? ==> forall j :: 0 <= j < r.value ==> s[j].id != id
    ensures r.None? <==> forall j :: 0 <= j < |s| ==> s[j].id != id
  {
    if s == [] then None
    else if s[0].id == id then Some(0)
    else
      match FindIndex(s[1..], id)
      case None => None
      case Some(k) => Some(k + 1)
  }

  /** Lookup by id depends on the ids alone. */
  lemma FindIndexSameIds(s: seq<Task>, s': seq<Task>, id: string)
    requires |s| == |s'|
    requires forall j :: 0 <= j < |s| ==> s[j].id == s'[j].id
    ensures FindIndex(s, id) == FindIndex(s', id)
  {
  }
}
