/**
 * The snapshot the app keeps in local storage, and the daily reset applied
 * when it is read back at start-up. Day strings are opaque: two moments are
 * the same day exactly when their day strings are equal.
 */
module Persistence {
  import opened Wrappers
  import opened Habits
  import opened Progress

  /** What is stored under the app's single storage key. */
  datatype Snapshot = Snapshot(habits: seq<Habit>, date: string)

  /** The snapshot written after every change of the list: the list, stamped with today's day string. */
  function Save(hs: seq<Habit>, today: string): (s: Snapshot)
    ensures s.habits == hs && s.date == today
  {
    Snapshot(hs, today)
  }

  /** Every habit with `completed` forced to false; ids, names, descriptions and order kept. */
  function ResetCompleted(hs: seq<Habit>): (r: seq<Habit>)
    ensures |r| == |hs|
    ensures forall i :: 0 <= i < |hs| ==>
              && r[i].id == hs[i].id && r[i].name == hs[i].name
              && r[i].description == hs[i].description && !r[i].completed
  {
    seq(|hs|, i requires 0 <= i < |hs| => hs[i].(completed := false))
  }

  /**
   * The list the app shows after start-up. `saved` is None when nothing is
   * stored or the stored text cannot be read; the app then keeps its initial
   * list. A snapshot of today is taken as it is; an older one has every
   * completion cleared.
   */
  function Load(saved: Option<Snapshot>, today: string): (r: seq<Habit>)
    ensures saved.None? ==> r == InitialHabits()
    ensures saved.Some? && saved.value.date == today ==> r == saved.value.habits
    ensures saved.Some? && saved.value.date != today ==>
              && |r| == |saved.value.habits|
              && forall i :: 0 <= i < |r| ==>
                   && r[i].id == saved.value.habits[i].id
                   && r[i].name == saved.value.habits[i].name
                   && r[i].description == saved.value.habits[i].description
                   && !r[i].completed
  {
    match saved
    case None => InitialHabits()
    case Some(s) => if s.date == today then s.habits else ResetCompleted(s.habits)
  }

  /** Saving and loading again on the same day gives back the same list. */
  lemma SaveLoadSameDay(hs: seq<Habit>, today: string)
    ensures Load(Some(Save(hs, today)), today) == hs
  {
  }

  /** On a new day, whatever was completed before, the loaded list starts at 0 completed and 0%. */
  lemma LoadNewDayClearsProgress(s: Snapshot, today: string)
    requires s.date != today
    ensures ProgressOf(Load(Some(s), today)) == Progress(0, |s.habits|, 0)
  {
  }

  /** Whatever is stored, the loaded list's progress figures are in range. */
  lemma LoadProgressInRange(saved: Option<Snapshot>, today: string)
    ensures var p := ProgressOf(Load(saved, today));
            && p.completed <= p.total == |Load(saved, today)|
            && p.percentage <= 100
            && (p.total == 0 ==> p.percentage == 0)
  {
  }

  /** Clearing completions twice is the same as clearing them once. */
  lemma ResetCompletedIdempotent(hs: seq<Habit>)
    ensures ResetCompleted(ResetCompleted(hs)) == ResetCompleted(hs)
  {
  }

  /** A stored list with unique ids loads as a list with unique ids. */
  lemma LoadKeepsUniqueIds(saved: Option<Snapshot>, today: string)
    requires saved.Some? ==> UniqueIds(saved.value.habits)
    ensures UniqueIds(Load(saved, today))
  {
  }
}
