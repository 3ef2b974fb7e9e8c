# Habit tracker: the habit list and its daily reset

A model of the state logic of a single-screen habit-tracking app (the `App`
component of `App.js`). The app holds an ordered list of habit records
`{id, name, description, completed}`. The user can tick a habit, add or edit one
through a name/description editor, delete one, or restore the six built-in
habits. At start-up the app reads back a stored snapshot `{habits, date}`. If
the snapshot was written on another day, every habit is reopened. A header shows
how many habits are done and the rounded percentage.

Every update in the source builds a new list (`map`, `filter`, array spread) and
hands it to the state setter. So the model is a set of pure functions over
`seq<Habit>`, with lemmas about them:

- `wrappers.dfy` (`Wrappers`): `Option` and `Result`.
- `js_string.dfy` (`JsString`): JavaScript's `String.prototype.trim` and the
  editor's blank-name test `!name.trim()`.
- `habits.dfy` (`Habits`): the record, the default set and the list updates
  toggle, edit, add, save, delete and reset. Also the unique-id invariant each
  of them keeps.
- `progress.dfy` (`Progress`): the completed count and the rounded percentage.
- `persistence.dfy` (`Persistence`): the stored snapshot, and loading it with
  the daily reset.
- `app.dfy` (`App`): the component as a state machine. Start-up load is
  followed by user events. The unique-id invariant is proved over a whole
  session, and two worked scenarios are proved.

Inputs the app takes from its environment are parameters of the model. These
are today's day string (`new Date().toDateString()`), the id of a new habit
(`Date.now().toString()`) and the stored snapshot. The stored snapshot is
`None` when nothing is stored or the stored text cannot be parsed.

The model follows the code on these points:
- Editing an unknown id silently does nothing. No error is raised.
- Delete removes every record with the given id, not only the first one.
- A name is refused only when it trims to the empty string. The name and the
  description are stored as typed, untrimmed.
- When nothing is stored or the stored data cannot be read, the app keeps the
  list it started with. That list is the default set.
- The id of a new habit comes from the clock, and nothing checks that it is
  fresh. Uniqueness of ids is therefore proved only under an explicit freshness
  precondition (`FreshAdd`, `FreshAdds`).

## Model

| member | source | states |
|---|---|---|
| `Habits.InitialHabits` | App.js:17-24 | the default list has six records, with ids "1" to "6" in order, none completed, and no id repeated |
| `Habits.Toggle` | App.js:89-97 | same length and order; ids, names and descriptions are kept; `completed` flips exactly on the records whose id matches |
| `Habits.ToggleInvolution` | App.js:91-94 | toggling the same id twice gives back the original list |
| `Habits.Edit` | App.js:119-126 | same length and order; ids and completion are kept; the matching records get the new name and description; every other record is unchanged |
| `Habits.EditUnknownIsNoOp` | App.js:120-125 | editing an id that no record carries leaves the list unchanged |
| `Habits.Add` | App.js:127-134 | exactly one record is appended, with the given id, name and description and not completed; the existing records are the unchanged prefix |
| `Habits.SaveHabit` | App.js:113-138 | save is refused exactly when the name is all white space; otherwise it edits the habit being edited, or adds a new one when no habit is being edited |
| `Habits.AfterSave` | App.js:113-136 | a blank name leaves the list unchanged; an add appends exactly the new record after the unchanged list; an edit gives the edited list |
| `Habits.Delete` | App.js:150 | no record with the deleted id is left, and the list never grows |
| `Habits.DeleteMembers` | App.js:150 | the records kept are exactly those of the list whose id differs from the deleted one |
| `Habits.DeleteAppend` | App.js:150 | delete acts piecewise on a concatenation, so the records kept stay in their relative order |
| `Habits.DeleteUnknownIsNoOp` | App.js:150 | deleting an id that no record carries changes nothing |
| `Habits.DeleteIdempotent` | App.js:150 | deleting the same id twice is the same as deleting it once |
| `Habits.DeleteUniqueRemovesOne` | App.js:150 | with unique ids, deleting the id at position k removes exactly that record and keeps the rest in order |
| `Habits.ResetDefaults` | App.js:167 | whatever the prior list, the result is six records with ids "1" to "6", none completed, ids unique |
| `Habits.ToggleKeepsUniqueIds` | App.js:91-94 | toggle keeps ids unique |
| `Habits.EditKeepsUniqueIds` | App.js:121-125 | edit keeps ids unique |
| `Habits.AddFreshKeepsUniqueIds` | App.js:128-134 | adding a record whose id is not in use keeps ids unique |
| `Habits.DeleteKeepsUniqueIds` | App.js:150 | delete keeps ids unique |
| `JsString.TrimStart` | App.js:114 | the result is a suffix of the input, what was cut off is all white space, and the result does not start with white space |
| `JsString.TrimEnd` | App.js:114 | the result is a prefix of the input, what was cut off is all white space, and the result does not end with white space |
| `JsString.TrimIsSlice` | App.js:114 | trim returns a contiguous slice of the input, cut only at white space, with no white space left at either end |
| `JsString.BlankIffAllWhitespace` | App.js:114 | a name trims to the empty string exactly when all of its characters are white space |
| `JsString.TrimIdempotent` | App.js:114 | trimming twice is the same as trimming once |
| `Progress.CompletedCount` | App.js:174 | the count is the number of records whose `completed` flag is true; it is at most the list length; it is 0 exactly when nothing is completed and equals the length exactly when everything is completed |
| `Progress.Percentage` | App.js:175-177 | the percentage is between 0 and 100; it is 0 for an empty list and when nothing is completed; otherwise it lies within one half of 100·completed/total, with halves rounded up |
| `Progress.PercentageIsNearest` | App.js:176 | exactly one integer meets that rounding condition, so the percentage is determined by it |
| `Progress.ProgressOf` | App.js:174-177 | the total is the list length, the completed count is at most the total, the percentage is at most 100, and it is 0 when the list is empty or nothing is completed |
| `Persistence.Save` | App.js:79-82 | the snapshot holds the list as it is, stamped with today's day string |
| `Persistence.ResetCompleted` | App.js:65-68 | same length and order, ids, names and descriptions; every `completed` is false |
| `Persistence.Load` | App.js:55-75 | nothing stored or unreadable data gives the default list; a snapshot from today is returned unchanged; an older one keeps length, ids, names and descriptions with every `completed` false |
| `Persistence.SaveLoadSameDay` | App.js:58-63 | saving and loading on the same day gives back the same list |
| `Persistence.LoadNewDayClearsProgress` | App.js:64-69 | after loading a snapshot from another day, progress is 0 of n, 0% |
| `Persistence.LoadProgressInRange` | App.js:174-177 | whatever is loaded, 0 ≤ completed ≤ length and 0 ≤ percentage ≤ 100, with 0% for an empty list |
| `Persistence.ResetCompletedIdempotent` | App.js:65-68 | clearing completions twice is the same as clearing them once |
| `Persistence.LoadKeepsUniqueIds` | App.js:58-70 | a stored list with unique ids loads as a list with unique ids |
| `App.StepKeepsUniqueIds` | App.js:89-172 | every user event keeps ids unique, provided that an added habit's id is fresh |
| `App.RunKeepsUniqueIds` | App.js:89-172 | a run of events whose adds bring fresh ids keeps ids unique |
| `App.SessionKeepsUniqueIds` | App.js:35-42 | a session of start-up load followed by events keeps ids unique, given a stored list with unique ids and fresh ids on add |
| `App.BlankSaveIsNoOp` | App.js:113-117 | saving with a blank name, for an add or for an edit, leaves the list unchanged |
| `App.DefaultsToggleFirst` | App.js:174-177 | starting from the defaults and ticking habit "1" shows 1 of 6 completed, 17% |
| `App.DefaultsAddFloss` | App.js:127-134 | adding "Floss" to the defaults gives 7 habits, with the new one last and not completed, and a progress total of 7 |

## Left out

- Rendering, styling, the `HabitItem` component, the modal and its input fields (App.js:179-466) are user interface only. The editor is modelled as `SaveHabit` taking the habit being edited, the name and the description directly.
- The `Alert.alert` confirmation dialogs (App.js:141-154, App.js:158-171) are left out. Only the effect of the destructive button is modelled (`Delete`, `ResetDefaults`). The blank-name alert is modelled as the `EmptyName` failure.
- AsyncStorage, `JSON.parse` and `JSON.stringify`, and `console.error` are asynchronous foreign I/O. A missing or unparseable snapshot is `None`. Stored JSON of another shape is not modelled. For example, a `habits` field that is not an array makes the reset branch throw, and the list stays as it was. The same-day branch would install such a value as the list.
- The save effect on every change of the list (App.js:40-42) is left out, and so is its ordering against the start-up load. The model does not capture that the first save of the default list is issued before the stored snapshot has been read back. `Save` models only the snapshot that each save writes.
- `Date`, `toDateString`, `toLocaleDateString` and `updateDate` (App.js:44-53) are clock and locale formatting. Day strings are opaque parameters. The header's date text is not modelled.
- The daily reset runs only at start-up. The model, like the source, has no reset at midnight while the app stays open.
- `Date.now()` id generation (App.js:129): the new id is a parameter, and freshness is a precondition of the unique-id lemmas only.
- `Progress.Percentage`: does not model the floating-point evaluation of `Math.round(completedCount / length * 100)`. It is the exact rational value rounded half up, which can differ from the floating-point result where a product lands just below a half. For 23 completed of 40 habits, `(23 / 40) * 100` is 57.49999999999999 in double precision, so the app shows 57% while the model gives 58.
- `JsString.IsWhitespace`: characters are Unicode scalar values rather than UTF-16 code units. Every character `trim` removes lies in the Basic Multilingual Plane, so the blank-name test is unaffected.
