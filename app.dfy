/**
 * The App component as a state machine over its habit list: start-up loads
 * the stored snapshot, then each confirmed user event replaces the list with
 * the result of one whole-list update.
 */
module App {
  import opened Wrappers
  import opened JsString
  import opened Habits
  import opened Progress
  import opened Persistence

  /** The user events that change the list, after any confirmation dialog has been accepted. */
  datatype Action =
    | TogglePressed(id: string)
    | SavePressed(editing: Option<string>, name: string, description: string, newId: string)
    | DeleteConfirmed(id: string)
    | ResetConfirmed

  /** The list after one event. */
  function Step(hs: seq<Habit>, a: Action): seq<Habit> {
    match a
    case TogglePressed(id) => Toggle(hs, id)
    case SavePressed(editing, name, description, newId) => AfterSave(hs, editing, name, description, newId)
    case DeleteConfirmed(id) => Delete(hs, id)
    case ResetConfirmed => ResetDefaults(hs)
  }

  /** The list after a run of events, in order. */
  function Run(hs: seq<Habit>, actions: seq<Action>): seq<Habit>
    decreases |actions|
  {
    if actions == [] then hs else Run(Step(hs, actions[0]), actions[1..])
  }

  /** An event that adds a habit brings an id not yet in the list. */
  predicate FreshAdd(hs: seq<Habit>, a: Action) {
    a.SavePressed? && a.editing.None? ==> !HasId(hs, a.newId)
  }

  /** Every add in the run brings an id not in the list at that moment. */
  predicate FreshAdds(hs: seq<Habit>, actions: seq<Action>)
    decreases |actions|
  {
    actions == [] || (FreshAdd(hs, actions[0]) && FreshAdds(Step(hs, actions[0]), actions[1..]))
  }

  /** Each event keeps ids unique, given that an added habit's id is fresh. */
  lemma StepKeepsUniqueIds(hs: seq<Habit>, a: Action)
    requires UniqueIds(hs) && FreshAdd(hs, a)
    ensures UniqueIds(Step(hs, a))
  {
    match a
    case TogglePressed(id) =>
      ToggleKeepsUniqueIds(hs, id);
    case SavePressed(editing, name, description, newId) =>
      match editing {
        case Some(id) => EditKeepsUniqueIds(hs, id, name, description);
        case None => AddFreshKeepsUniqueIds(hs, newId, name, description);
      }
    case DeleteConfirmed(id) =>
      DeleteKeepsUniqueIds(hs, id);
    case ResetConfirmed =>
  }

  /** From a list with unique ids, a run whose adds bring fresh ids ends with unique ids. */
  lemma {:induction false} RunKeepsUniqueIds(hs: seq<Habit>, actions: seq<Action>)
    requires UniqueIds(hs) && FreshAdds(hs, actions)
    ensures UniqueIds(Run(hs, actions))
    decreases |actions|
  {
    if actions != [] {
      StepKeepsUniqueIds(hs, actions[0]);
      RunKeepsUniqueIds(Step(hs, actions[0]), actions[1..]);
    }
  }

  /** A session: start-up load, then the events. A stored list with unique ids stays that way. */
  lemma SessionKeepsUniqueIds(saved: Option<Snapshot>, today: string, actions: seq<Action>)
    requires saved.Some? ==> UniqueIds(saved.value.habits)
    requires FreshAdds(Load(saved, today), actions)
    ensures UniqueIds(Run(Load(saved, today), actions))
  {
    LoadKeepsUniqueIds(saved, today);
    RunKeepsUniqueIds(Load(saved, today), actions);
  }

  /** Saving with a blank name, for an add or an edit, leaves the list as it was. */
  lemma BlankSaveIsNoOp(hs: seq<Habit>, editing: Option<string>, name: string, description: string,
                        newId: string)
    requires AllWhitespace(name)
    ensures Step(hs, SavePressed(editing, name, description, newId)) == hs
  {
  }

  /** Starting from the defaults and ticking habit "1" shows 1 / 6 completed (17%). */
  lemma DefaultsToggleFirst()
    ensures ProgressOf(Step(InitialHabits(), TogglePressed("1"))) == Progress(1, 6, 17)
  {
  }

  /** Adding "Floss" with an empty description to the defaults gives seven habits, the new one last and open. */
  lemma DefaultsAddFloss(newId: string)
    ensures var r := Step(InitialHabits(), SavePressed(None, "Floss", "", newId));
            && |r| == 7 && r[6] == Habit(newId, "Floss", "", false)
            && ProgressOf(r).total == 7
  {
  }
}
