/**
 * The mutations the controller applies to its task collection, each as a
 * function from the old collection to the new one, with the properties each
 * keeps: what changes, what stays, and that ids stay unique.
 */
module Store {
  import opened Tasks

  /** No two tasks of the collection share an id. */
  predicate UniqueIds(s: seq<Task>)
  {
    forall i, j :: 0 <= i < j < |s| ==> s[i].id != s[j].id
  }

  /** `id` names some task of the collection. */
  predicate HasId(s: seq<Task>, id: string)
  {
    FindIndex(s, id).Some?
  }

  // ---------------------------------------------------------------- add

  /** The record a non-editing submit pushes: a fresh id, not completed. */
  function NewTask(id: string, title: string, description: string, dueDate: Time, priority: Priority): (t: Task)
    ensures !t.completed
    ensures t.id == id && t.title == title && t.description == description
    ensures t.dueDate == dueDate && t.priority == priority
  {
    Task(id, title, description, dueDate, priority, false)
  }

  /** Appending a task leaves the lookup of every other id as it was. */
  lemma FindIndexAppend(s: seq<Task>, t: Task, id: string)
    requires id != t.id
    ensures FindIndex(s + [t], id) == FindIndex(s, id)
  {
    var r, r' := FindIndex(s, id), FindIndex(s + [t], id);
    if r.Some? {
      assert (s + [t])[r.value].id == id;
      assert r'.Some? && r'.value <= r.value;
      assert s[r'.value].id == id;
    }
  }

  /** Appending a task whose id is not yet used keeps ids unique and finds it at the end. */
  lemma AddKeepsUniqueIds(s: seq<Task>, t: Task)
    requires UniqueIds(s) && !HasId(s, t.id)
    ensures UniqueIds(s + [t])
    ensures FindIndex(s + [t], t.id) == Some(|s|)
    ensures forall id :: id != t.id ==> FindIndex(s + [t], id) == FindIndex(s, id)
  {
    forall id | id != t.id
      ensures FindIndex(s + [t], id) == FindIndex(s, id)
    {
      FindIndexAppend(s, t, id);
    }
    assert (s + [t])[|s|].id == t.id;
  }

  // ---------------------------------------------------------------- edit

  /**
   * The collection after an edit submit: the first task with id `id` takes the
   * submitted title, description, due date and priority.
   */
  function Edited(s: seq<Task>, id: string, title: string, description: string, dueDate: Time, priority: Priority): (r: seq<Task>)
    requires HasId(s, id)
    ensures |r| == |s|
    ensures var k := FindIndex(s, id).value;
      r[k] == s[k].(title := title, description := description, dueDate := dueDate, priority := priority)
    ensures forall j :: 0 <= j < |s| && j != FindIndex(s, id).value ==> r[j] == s[j]
  {
    var k := FindIndex(s, id).value;
    s[k := s[k].(title := title, description := description, dueDate := dueDate, priority := priority)]
  }

  /** An edit keeps every id and every completion flag where it was. */
  lemma EditKeepsIdsAndCompletion(s: seq<Task>, id: string, title: string, description: string, dueDate: Time, priority: Priority)
    requires HasId(s, id)
    ensures var r := Edited(s, id, title, description, dueDate, priority);
      forall j :: 0 <= j < |s| ==> r[j].id == s[j].id && r[j].completed == s[j].completed
    ensures UniqueIds(s) ==> UniqueIds(Edited(s, id, title, description, dueDate, priority))
  {
  }

  // ---------------------------------------------------------------- delete

  /** The filter predicate of a delete: keep tasks whose id differs. */
  function NotId(id: string): Task -> bool
  {
    (t: Task) => t.id != id
  }

  /** The collection after a delete: every task whose id is `id` is gone. */
  function Deleted(s: seq<Task>, id: string): (r: seq<Task>)
  {
    Select(s, NotId(id))
  }

  /** Deleting removes exactly the tasks with that id and keeps the rest, with their multiplicities. */
  lemma DeleteRemovesExactly(s: seq<Task>, id: string)
    ensures !HasId(Deleted(s, id), id)
    ensures forall t: Task :: t in Deleted(s, id) <==> t in s && t.id != id
    ensures forall t: Task :: t.id != id ==> multiset(Deleted(s, id))[t] == multiset(s)[t]
  {
    forall t
      ensures (t in Deleted(s, id) <==> t in s && t.id != id)
      ensures t.id != id ==> multiset(Deleted(s, id))[t] == multiset(s)[t]
    {
      SelectMember(s, NotId(id), t);
      SelectCount(s, NotId(id), t);
    }
    var r := Deleted(s, id);
    forall j | 0 <= j < |r| ensures r[j].id != id {
      assert r[j] in r;
    }
  }

  /** Deleting keeps the order of what remains: it distributes over concatenation. */
  lemma DeleteKeepsOrder(s1: seq<Task>, s2: seq<Task>, id: string)
    ensures Deleted(s1 + s2, id) == Deleted(s1, id) + Deleted(s2, id)
  {
    SelectConcat(s1, s2, NotId(id));
  }

  /** Deleting an id that no task has changes nothing. */
  lemma DeleteAbsentIsNoOp(s: seq<Task>, id: string)
    requires !HasId(s, id)
    ensures Deleted(s, id) == s
  {
    SelectKeepsAll(s, NotId(id));
  }

  /** Deleting twice is deleting once. */
  lemma DeleteIdempotent(s: seq<Task>, id: string)
    ensures Deleted(Deleted(s, id), id) == Deleted(s, id)
  {
    DeleteRemovesExactly(s, id);
    DeleteAbsentIsNoOp(Deleted(s, id), id);
  }

  /** With unique ids, a delete removes at most one task and keeps ids unique. */
  lemma {:induction false} DeleteRemovesAtMostOne(s: seq<Task>, id: string)
    requires UniqueIds(s)
    ensures |s| - 1 <= |Deleted(s, id)|
    ensures UniqueIds(Deleted(s, id))
  {
    if s != [] {
      var init, last := s[..|s| - 1], s[|s| - 1];
      assert s == init + [last];
      DeleteRemovesAtMostOne(init, id);
      if last.id == id {
        assert !HasId(init, id) by {
          assert forall j :: 0 <= j < |init| ==> init[j].id != id by {
            forall j | 0 <= j < |init| ensures init[j].id != id {
              assert s[j].id != s[|s| - 1].id;
            }
          }
        }
        DeleteAbsentIsNoOp(init, id);
      } else {
        var d := Deleted(init, id);
        assert Deleted(s, id) == d + [last];
        forall t | t in d ensures t.id != last.id {
          DeleteRemovesExactly(init, id);
          var j :| 0 <= j < |init| && init[j] == t;
          assert s[j].id != s[|s| - 1].id;
        }
      }
    }
  }

  // ---------------------------------------------------------------- toggle

  /** The collection after toggling the first task with id `id`. */
  function Toggled(s: seq<Task>, id: string): (r: seq<Task>)
    requires HasId(s, id)
    ensures |r| == |s|
    ensures var k := FindIndex(s, id).value;
      r[k] == s[k].(completed := !s[k].completed)
    ensures forall j :: 0 <= j < |s| && j != FindIndex(s, id).value ==> r[j] == s[j]
  {
    var k := FindIndex(s, id).value;
    s[k := s[k].(completed := !s[k].completed)]
  }

  /** Toggling twice restores the collection, and a toggle keeps every id in place. */
  lemma ToggleTwiceRestores(s: seq<Task>, id: string)
    requires HasId(s, id)
    ensures forall j :: 0 <= j < |s| ==> Toggled(s, id)[j].id == s[j].id
    ensures HasId(Toggled(s, id), id)
    ensures Toggled(Toggled(s, id), id) == s
    ensures UniqueIds(s) ==> UniqueIds(Toggled(s, id))
  {
    var r := Toggled(s, id);
    FindIndexSameIds(s, r, id);
    assert Toggled(r, id) == s;
  }

  // ---------------------------------------------------------------- move

  /**
   * The collection after a calendar drop: the first task with id `id` takes
   * the new due date; nothing changes when no task has that id.
   */
  function Moved(s: seq<Task>, id: string, dueDate: Time): (r: seq<Task>)
    ensures |r| == |s|
    ensures forall j :: 0 <= j < |s| ==> r[j].(dueDate := s[j].dueDate) == s[j]
    ensures !HasId(s, id) ==> r == s
    ensures HasId(s, id) ==> r[FindIndex(s, id).value].dueDate == dueDate
    ensures HasId(s, id) ==> forall j :: 0 <= j < |s| && j != FindIndex(s, id).value ==> r[j] == s[j]
  {
    match FindIndex(s, id)
    case None => s
    case Some(k) => s[k := s[k].(dueDate := dueDate)]
  }

  /** A move keeps ids unique, and moving again to the same date changes nothing more. */
  lemma MoveKeepsUniqueIds(s: seq<Task>, id: string, dueDate: Time)
    ensures UniqueIds(s) ==> UniqueIds(Moved(s, id, dueDate))
    ensures Moved(Moved(s, id, dueDate), id, dueDate) == Moved(s, id, dueDate)
  {
    var r := Moved(s, id, dueDate);
    assert forall j :: 0 <= j < |s| ==> r[j].id == s[j].id by {
      forall j | 0 <= j < |s| ensures r[j].id == s[j].id {
        assert r[j].(dueDate := s[j].dueDate).id == r[j].id;
      }
    }
    FindIndexSameIds(s, r, id);
  }
}
