/**
 * The habit list held by the App component and the whole-list updates it
 * passes to its state setter: toggle, save (edit or add), delete and reset
 * to the default set. Each update builds a new list; none changes a list in
 * place.
 */
module Habits {
  import opened Wrappers
  import opened JsString

  /** One habit record. */
  datatype Habit = Habit(id: string, name: string, description: string, completed: bool)

  /** Why the editor refuses to save. */
  datatype SaveError = EmptyName

  /** Some record of `hs` carries `id`. */
  predicate HasId(hs: seq<Habit>, id: string) {
    exists i :: 0 <= i < |hs| && hs[i].id == id
  }

  /** No two records of `hs` share an id. */
  predicate UniqueIds(hs: seq<Habit>) {
    forall i, j :: 0 <= i < j < |hs| ==> hs[i].id != hs[j].id
  }

  /** The one-character id "1" .. "6" of the k-th default habit. */
  function DefaultId(k: nat): string
    requires k < 6
  {
    [('1' as int + k) as char]
  }

  /** The six built-in habits, in display order, none completed. */
  function InitialHabits(): (r: seq<Habit>)
    ensures |r| == 6
    ensures forall k :: 0 <= k < 6 ==> r[k].id == DefaultId(k) && !r[k].completed
    ensures UniqueIds(r)
  {
    [ Habit("1", "\U{1F4A7} Drink Water", "Drink 8 glasses", false),
      Habit("2", "\U{1F3C3} Exercise", "30 minutes workout", false),
      Habit("3", "\U{1F4DA} Read", "Read for 20 minutes", false),
      Habit("4", "\U{1F9D8} Meditate", "10 minutes meditation", false),
      Habit("5", "\U{1F957} Eat Healthy", "Include vegetables", false),
      Habit("6", "School Assignments", "Complete class works or assignments", false) ]
  }

  /** Flips `completed` on every record whose id is `id`; every other record is left as it was. */
  function Toggle(hs: seq<Habit>, id: string): (r: seq<Habit>)
    ensures |r| == |hs|
    ensures forall i :: 0 <= i < |hs| ==>
              && r[i].id == hs[i].id && r[i].name == hs[i].name
              && r[i].description == hs[i].description
              && r[i].completed == (hs[i].completed != (hs[i].id == id))
  {
    seq(|hs|, i requires 0 <= i < |hs| =>
      if hs[i].id == id then hs[i].(completed := !hs[i].completed) else hs[i])
  }

  /** Toggling the same habit twice gives back the list it started from. */
  lemma ToggleInvolution(hs: seq<Habit>, id: string)
    ensures Toggle(Toggle(hs, id), id) == hs
  {
  }

  /** Replaces name and description of every record whose id is `id`, keeping its id and completion. */
  function Edit(hs: seq<Habit>, id: string, name: string, description: string): (r: seq<Habit>)
    ensures |r| == |hs|
    ensures forall i :: 0 <= i < |hs| ==> r[i].id == hs[i].id && r[i].completed == hs[i].completed
    ensures forall i :: 0 <= i < |hs| && hs[i].id == id ==>
              r[i].name == name && r[i].description == description
    ensures forall i :: 0 <= i < |hs| && hs[i].id != id ==> r[i] == hs[i]
  {
    seq(|hs|, i requires 0 <= i < |hs| =>
      if hs[i].id == id then hs[i].(name := name, description := description) else hs[i])
  }

  /** Editing an id that no record carries changes nothing. */
  lemma EditUnknownIsNoOp(hs: seq<Habit>, id: string, name: string, description: string)
    requires !HasId(hs, id)
    ensures Edit(hs, id, name, description) == hs
  {
  }

  /** Appends one new, not yet completed record; the existing records stay as they were, in front of it. */
  function Add(hs: seq<Habit>, id: string, name: string, description: string): (r: seq<Habit>)
    ensures |r| == |hs| + 1 && r[..|hs|] == hs
    ensures r[|hs|] == Habit(id, name, description, false)
  {
    hs + [Habit(id, name, description, false)]
  }

  /**
   * The editor's Save button. A name that trims to "" is refused and the list
   * is left alone; otherwise `editing` (the id of the habit opened for
   * editing, or None for a new one) selects Edit or Add. `newId` stands for
   * the id the app derives from the clock. The name and the description are
   * stored as typed, untrimmed.
   */
  function SaveHabit(hs: seq<Habit>, editing: Option<string>, name: string, description: string,
                     newId: string): (r: Result<seq<Habit>, SaveError>)
    ensures r.Failure? <==> AllWhitespace(name)
    ensures r.Success? && editing.Some? ==> r.value == Edit(hs, editing.value, name, description)
    ensures r.Success? && editing.None? ==> r.value == Add(hs, newId, name, description)
  {
    BlankIffAllWhitespace(name);
    if IsBlank(name) then
      Failure(EmptyName)
    else
      match editing
      case Some(id) => Success(Edit(hs, id, name, description))
      case None => Success(Add(hs, newId, name, description))
  }

  /** The list the app holds after Save: the saved list, or the old one when the name was refused. */
  function AfterSave(hs: seq<Habit>, editing: Option<string>, name: string, description: string,
                     newId: string): (r: seq<Habit>)
    ensures AllWhitespace(name) ==> r == hs
    ensures !AllWhitespace(name) && editing.None? ==>
              |r| == |hs| + 1 && r[..|hs|] == hs && r[|hs|] == Habit(newId, name, description, false)
    ensures !AllWhitespace(name) && editing.Some? ==> r == Edit(hs, editing.value, name, description)
  {
    match SaveHabit(hs, editing, name, description, newId)
    case Success(saved) => saved
    case Failure(_) => hs
  }

  /** Keeps, in their order, the records whose id is not `id`. */
  function Delete(hs: seq<Habit>, id: string): (r: seq<Habit>)
    ensures |r| <= |hs|
    ensures forall i :: 0 <= i < |r| ==> r[i].id != id
    decreases |hs|
  {
    if hs == [] then []
    else (if hs[0].id != id then [hs[0]] else []) + Delete(hs[1..], id)
  }

  /** The records Delete keeps are exactly the records of the list that do not carry `id`. */
  lemma {:induction false} DeleteMembers(hs: seq<Habit>, id: string)
    ensures forall h :: h in Delete(hs, id) <==> h in hs && h.id != id
    decreases |hs|
  {
    if hs != [] {
      DeleteMembers(hs[1..], id);
      assert hs == [hs[0]] + hs[1..];
    }
  }

  /** Delete works piecewise, so the survivors keep their relative order. */
  lemma {:induction false} DeleteAppend(a: seq<Habit>, b: seq<Habit>, id: string)
    ensures Delete(a + b, id) == Delete(a, id) + Delete(b, id)
    decreases |a|
  {
    if a == [] {
      assert a + b == b;
    } else {
      assert (a + b)[1..] == a[1..] + b;
      DeleteAppend(a[1..], b, id);
      var head := if a[0].id != id then [a[0]] else [];
      calc {
        Delete(a + b, id);
        head + Delete(a[1..] + b, id);
        head + (Delete(a[1..], id) + Delete(b, id));
        (head + Delete(a[1..], id)) + Delete(b, id);
      }
    }
  }

  /** Deleting an id no record carries changes nothing. */
  lemma {:induction false} DeleteUnknownIsNoOp(hs: seq<Habit>, id: string)
    requires !HasId(hs, id)
    ensures Delete(hs, id) == hs
    decreases |hs|
  {
    if hs != [] {
      assert !HasId(hs[1..], id) by {
        forall i | 0 <= i < |hs[1..]| ensures hs[1..][i].id != id {
          assert hs[1..][i] == hs[i + 1];
        }
      }
      DeleteUnknownIsNoOp(hs[1..], id);
    }
  }

  /** Deleting the same id a second time changes nothing. */
  lemma DeleteIdempotent(hs: seq<Habit>, id: string)
    ensures Delete(Delete(hs, id), id) == Delete(hs, id)
  {
    DeleteUnknownIsNoOp(Delete(hs, id), id);
  }

  /** With unique ids, deleting the id at position k removes exactly that record. */
  lemma DeleteUniqueRemovesOne(hs: seq<Habit>, k: int)
    requires UniqueIds(hs) && 0 <= k < |hs|
    ensures Delete(hs, hs[k].id) == hs[..k] + hs[k + 1..]
  {
    IdOnlyAt(hs, k);
    DeleteBetween(hs, hs[..k], hs[k], hs[k + 1..]);
  }

  /** Deleting the id of a record that occurs nowhere else in the list removes just that record. */
  lemma DeleteBetween(hs: seq<Habit>, before: seq<Habit>, x: Habit, after: seq<Habit>)
    requires hs == before + [x] + after
    requires !HasId(before, x.id) && !HasId(after, x.id)
    ensures Delete(hs, x.id) == before + after
  {
    DeleteAppend(before + [x], after, x.id);
    DeleteAppend(before, [x], x.id);
    DeleteUnknownIsNoOp(before, x.id);
    DeleteUnknownIsNoOp(after, x.id);
    assert Delete([x], x.id) == [] by {
      assert [x][1..] == [];
    }
  }

  /** With unique ids, the id at position k occurs neither before nor after it. */
  lemma IdOnlyAt(hs: seq<Habit>, k: int)
    requires UniqueIds(hs) && 0 <= k < |hs|
    ensures !HasId(hs[..k], hs[k].id) && !HasId(hs[k + 1..], hs[k].id)
  {
  }

  /** The effect of confirming "Reset to Defaults": the default set, whatever was there before. */
  function ResetDefaults(hs: seq<Habit>): (r: seq<Habit>)
    ensures |r| == 6 && UniqueIds(r)
    ensures forall k :: 0 <= k < 6 ==> r[k].id == DefaultId(k) && !r[k].completed
  {
    InitialHabits()
  }

  /** Toggle keeps ids unique, since it keeps every id where it was. */
  lemma ToggleKeepsUniqueIds(hs: seq<Habit>, id: string)
    requires UniqueIds(hs)
    ensures UniqueIds(Toggle(hs, id))
  {
  }

  /** Edit keeps ids unique, since it keeps every id where it was. */
  lemma EditKeepsUniqueIds(hs: seq<Habit>, id: string, name: string, description: string)
    requires UniqueIds(hs)
    ensures UniqueIds(Edit(hs, id, name, description))
  {
  }

  /** Adding a record whose id is not yet in use keeps ids unique. */
  lemma AddFreshKeepsUniqueIds(hs: seq<Habit>, id: string, name: string, description: string)
    requires UniqueIds(hs) && !HasId(hs, id)
    ensures UniqueIds(Add(hs, id, name, description))
  {
  }

  /** Deleting keeps ids unique. */
  lemma {:induction false} DeleteKeepsUniqueIds(hs: seq<Habit>, id: string)
    requires UniqueIds(hs)
    ensures UniqueIds(Delete(hs, id))
    decreases |hs|
  {
    if hs != [] {
      var rest := Delete(hs[1..], id);
      DeleteKeepsUniqueIds(hs[1..], id);
      if hs[0].id != id {
        var r := [hs[0]] + rest;
        assert Delete(hs, id) == r;
        DeleteMembers(hs[1..], id);
        forall j | 0 < j < |r| ensures r[0].id != r[j].id {
          assert r[j] == rest[j - 1] && rest[j - 1] in rest;
          var m :| 0 <= m < |hs[1..]| && hs[1..][m] == rest[j - 1];
          assert hs[1..][m] == hs[m + 1];
        }
      }
    }
  }
}
