/**
 * The due-date sweeps: which tasks the overdue check alerts about and which
 * the due-soon check notifies about. The clock is a parameter: the overdue
 * check compares against today's midnight, the due-soon check against the
 * untruncated current time and the same time one day later.
 */
module Sweeps {
  import opened Tasks

  /** An open task whose due date is before today's midnight. */
  predicate IsOverdue(t: Task, todayMidnight: Time)
  {
    t.dueDate < todayMidnight && !t.completed
  }

  /** An open task due after now and no later than one day from now. */
  predicate IsDueSoon(t: Task, now: Time)
  {
    now < t.dueDate <= now + DayMs && !t.completed
  }

  function OverdueAt(todayMidnight: Time): Task -> bool
  {
    (t: Task) => IsOverdue(t, todayMidnight)
  }

  function DueSoonAt(now: Time): Task -> bool
  {
    (t: Task) => IsDueSoon(t, now)
  }

  /** The tasks the overdue check alerts about, one alert each, in collection order. */
  function Overdue(s: seq<Task>, todayMidnight: Time): (r: seq<Task>)
  {
    Select(s, OverdueAt(todayMidnight))
  }

  /** The tasks the due-soon check notifies about, in collection order. */
  function DueSoon(s: seq<Task>, now: Time): (r: seq<Task>)
  {
    Select(s, DueSoonAt(now))
  }

  /**
   * The overdue sweep alerts exactly the open tasks due before today's
   * midnight, as often as they occur, and keeps collection order.
   */
  lemma OverdueExact(s: seq<Task>, todayMidnight: Time)
    ensures forall t :: t in Overdue(s, todayMidnight) <==> t in s && t.dueDate < todayMidnight && !t.completed
    ensures forall t :: IsOverdue(t, todayMidnight) ==> multiset(Overdue(s, todayMidnight))[t] == multiset(s)[t]
    ensures forall s' :: Overdue(s + s', todayMidnight) == Overdue(s, todayMidnight) + Overdue(s', todayMidnight)
  {
    forall t ensures (t in Overdue(s, todayMidnight) <==> t in s && t.dueDate < todayMidnight && !t.completed)
      && (IsOverdue(t, todayMidnight) ==> multiset(Overdue(s, todayMidnight))[t] == multiset(s)[t])
    {
      SelectMember(s, OverdueAt(todayMidnight), t);
      SelectCount(s, OverdueAt(todayMidnight), t);
    }
    forall s' ensures Overdue(s + s', todayMidnight) == Overdue(s, todayMidnight) + Overdue(s', todayMidnight) {
      SelectConcat(s, s', OverdueAt(todayMidnight));
    }
  }

  /**
   * The due-soon sweep notifies exactly the open tasks due in the coming day,
   * as often as they occur, and keeps collection order.
   */
  lemma DueSoonExact(s: seq<Task>, now: Time)
    ensures forall t :: t in DueSoon(s, now) <==> t in s && now < t.dueDate <= now + DayMs && !t.completed
    ensures forall t :: IsDueSoon(t, now) ==> multiset(DueSoon(s, now))[t] == multiset(s)[t]
    ensures forall s' :: DueSoon(s + s', now) == DueSoon(s, now) + DueSoon(s', now)
  {
    forall t ensures (t in DueSoon(s, now) <==> t in s && now < t.dueDate <= now + DayMs && !t.completed)
      && (IsDueSoon(t, now) ==> multiset(DueSoon(s, now))[t] == multiset(s)[t])
    {
      SelectMember(s, DueSoonAt(now), t);
      SelectCount(s, DueSoonAt(now), t);
    }
    forall s' ensures DueSoon(s + s', now) == DueSoon(s, now) + DueSoon(s', now) {
      SelectConcat(s, s', DueSoonAt(now));
    }
  }

  /** When today's midnight is not after now, no task is both overdue and due soon. */
  lemma OverdueAndDueSoonDisjoint(s: seq<Task>, todayMidnight: Time, now: Time)
    requires todayMidnight <= now
    ensures forall t :: !(t in Overdue(s, todayMidnight) && t in DueSoon(s, now))
  {
    OverdueExact(s, todayMidnight);
    DueSoonExact(s, now);
  }

  /**
   * Example: with today at 2025-06-01, a task due 2025-05-30 raises
   * exactly one alert, and none once it is completed.
   */
  lemma OverdueExample()
    ensures var today := 20240 * DayMs;  // 2025-06-01 as days since 1970-01-01
      var t := Task("T", "", "", today - 2 * DayMs, Medium, false);
      Overdue([t], today) == [t] && Overdue([t.(completed := true)], today) == []
  {
    var today := 20240 * DayMs;
    var t := Task("T", "", "", today - 2 * DayMs, Medium, false);
    assert [t][..0] == [];
    assert [t.(completed := true)][..0] == [];
  }
}
