# Team roster: state holder and new-player form

A model of the two pieces of logic beneath the UI of a small app that keeps a
roster of team players.

- `roster.dfy`, module `Roster`: the state holder `TeamViewModel`. It owns
  one list of `Player(id, name, surname, yearOfBirth)` values. `AddPlayer`
  appends a player whose id is the current size plus one. `DeletePlayer`
  copies the list, removes the first equal player from the copy and
  republishes it. The class keeps the list in a `seq<Player>` field and a
  ghost history of the operations applied so far. Its invariant ties the
  field to `Replay`, a pure account of the same operations. The id
  properties are proved about `Replay`: ids stay sequential and distinct
  under additions only, and deleting any player but the last and then
  adding one repeats an id.
- `form.dfy`, module `Form`: the new-player screen. It has three text fields,
  a Save button enabled when all of them are non-blank, and a year field
  that shows an error unless the year is blank or parses to a year from
  1900 to the current one. Save hands `(name, surname, yearOfBirth.toInt())`
  to the roster's `AddPlayer`. `isBlank`, `toIntOrNull` and `toInt` are
  modelled as pure functions. The current year is a parameter. The form's
  three remembered strings are a class, `NewPlayerForm`, whose change
  handlers update one field each. The main proved fact is a gap: the button
  can be enabled while the year does not parse (and `toInt()` throws), or
  while it parses to a year outside the accepted range (and the player is
  added anyway).

Where Kotlin's `Player.equals` is not shown, players compare by value (the
four fields).

## Model

| member | source | states |
|---|---|---|
| `Roster.NextId` | app/src/main/java/com/shdwraze/team_testtask/ui/TeamViewModel.kt:15 | definition: the id of a new player is the current list size plus one |
| `Roster.Step` | app/src/main/java/com/shdwraze/team_testtask/ui/TeamViewModel.kt:14-22 | definition: an addition appends `Player(NextId, name, surname, yearOfBirth)`; a deletion is `RemoveFirst` |
| `Roster.FirstIndex` | app/src/main/java/com/shdwraze/team_testtask/ui/TeamViewModel.kt:21 | the position `remove` acts on: the element there equals the argument and no earlier element does |
| `Roster.RemoveFirst` | app/src/main/java/com/shdwraze/team_testtask/ui/TeamViewModel.kt:20-22 | removing an absent player leaves the list unchanged; removing a present one shortens it by exactly one; no new element appears |
| `Roster.RemoveFirstSplices` | app/src/main/java/com/shdwraze/team_testtask/ui/TeamViewModel.kt:20-22 | only the first equal occurrence is removed; the elements before it stay in place and those after it keep their relative order |
| `Roster.SequentialIdsAreDistinct` | app/src/main/java/com/shdwraze/team_testtask/ui/TeamViewModel.kt:15 | when the player at each index i has id i + 1, no two players share an id |
| `Roster.AddsOnlyKeepIdsSequential` | app/src/main/java/com/shdwraze/team_testtask/ui/TeamViewModel.kt:11-17 | from the initial empty list, after additions only, the player at index i has id i + 1 and the ids are distinct |
| `Roster.DeleteThenAddRepeatsId` | app/src/main/java/com/shdwraze/team_testtask/ui/TeamViewModel.kt:15-22 | on any roster with sequential ids, deleting any player except the last and then adding one gives the new player the id of the last player, so the ids are no longer distinct |
| `Roster.DuplicateIdTrace` | app/src/main/java/com/shdwraze/team_testtask/ui/TeamViewModel.kt:14-22 | add, add, delete the first player, add leaves two players, both with id 2 |
| `Roster.MaxId` | app/src/main/java/com/shdwraze/team_testtask/ui/TeamViewModel.kt:15 | corrected id rule: the result bounds every id in the list, is never negative, and is one of those ids or 0 (so it is 0 exactly when no id is above 0, and always 0 for the empty list) |
| `Roster.RemoveFirstKeepsIdsDistinct` | app/src/main/java/com/shdwraze/team_testtask/ui/TeamViewModel.kt:20-22 | deleting a player never makes two remaining ids equal |
| `Roster.FreshIdsStayDistinct` | app/src/main/java/com/shdwraze/team_testtask/ui/TeamViewModel.kt:15-16 | corrected id rule: with new ids taken one past the largest id in use, after any trace of additions and deletions no two players present share an id; an id freed by deleting the player with the largest id can be given out again (`Roster.FreshIdReusedAfterDeletingLargest`) |
| `Roster.FreshIdReusedAfterDeletingLargest` | app/src/main/java/com/shdwraze/team_testtask/ui/TeamViewModel.kt:15-21 | under the corrected id rule, on any roster with sequential ids, deleting the last player and then adding one gives the new player the deleted player's id: no two present players share an id, but an id can go to two players one after the other |
| `Roster.MaxIdOfSequential` | app/src/main/java/com/shdwraze/team_testtask/ui/TeamViewModel.kt:15 | while ids are still sequential, the largest id in use equals the list size, so the corrected rule and the size-plus-one rule agree until a deletion |
| `Roster.TeamViewModel.constructor` | app/src/main/java/com/shdwraze/team_testtask/ui/TeamViewModel.kt:11 | the holder starts with the empty list |
| `Roster.TeamViewModel.AddPlayer` | app/src/main/java/com/shdwraze/team_testtask/ui/TeamViewModel.kt:14-17 | the list grows by exactly one; earlier players are unchanged and in place; the last is `Player(old size + 1, name, surname, yearOfBirth)`; while only additions have happened, ids are sequential and distinct |
| `Roster.TeamViewModel.DeletePlayer` | app/src/main/java/com/shdwraze/team_testtask/ui/TeamViewModel.kt:19-23 | an absent player leaves the list unchanged; a present one is cut out at its first index, so the list is one shorter and the rest keeps its order |
| `Roster.DeleteThenAddOnHolder` | app/src/main/java/com/shdwraze/team_testtask/ui/TeamViewModel.kt:14-23 | the duplicate-id trace run on the holder itself ends with ids [2, 2] |
| `Form.IsBlank` | app/src/main/java/com/shdwraze/team_testtask/NewPlayerScreen.kt:58 | definition of `isBlank`: every character is whitespace (so the empty string is blank) |
| `Form.IsButtonEnabled` | app/src/main/java/com/shdwraze/team_testtask/NewPlayerScreen.kt:58 | definition: name, surname and year are all non-blank |
| `Form.IsYearOfBirthValid` | app/src/main/java/com/shdwraze/team_testtask/NewPlayerScreen.kt:59-61 | definition: the year is blank, or `toIntOrNull` gives a value from 1900 to the current year |
| `Form.FieldLabel` | app/src/main/java/com/shdwraze/team_testtask/NewPlayerScreen.kt:140 | definition: a field in the error state shows its error message, otherwise its label |
| `Form.Submit` | app/src/main/java/com/shdwraze/team_testtask/NewPlayerScreen.kt:106 | definition: the callback gets `(name, surname, toInt(year))`; `toInt` fails where `toIntOrNull` has no value |
| `Form.ToIntOrNull` | app/src/main/java/com/shdwraze/team_testtask/NewPlayerScreen.kt:59-61 | a parsed value always fits a 32-bit `Int`, and a string that parses is non-empty and holds no whitespace |
| `Form.ParsesDecimal` | app/src/main/java/com/shdwraze/team_testtask/NewPlayerScreen.kt:59-61 | every 32-bit value, written in decimal, parses back to itself (the parser is the inverse of `Int.toString`) |
| `Form.SubmittableYearEnablesButton` | app/src/main/java/com/shdwraze/team_testtask/NewPlayerScreen.kt:58 | with name and surname filled in, every year that Save can hand on (one that `toInt()` accepts) enables the button; a blank year keeps Save disabled, shows no error and would not parse |
| `Form.YearValidIff` | app/src/main/java/com/shdwraze/team_testtask/NewPlayerScreen.kt:59-61 | a blank year is always valid; a non-blank one is valid exactly when it is digits, optionally after one '+', with value from 1900 to the current year; a '-' never passes |
| `Form.CanonicalYearIsValid` | app/src/main/java/com/shdwraze/team_testtask/NewPlayerScreen.kt:59-61 | every year from 1900 to the current year, written in decimal, is non-blank and valid |
| `Form.YearFieldLabel` | app/src/main/java/com/shdwraze/team_testtask/NewPlayerScreen.kt:97 | the year field is in the error state exactly when the year is invalid, and then its label (line 140) is the error message; a blank year shows the label |
| `Form.ValidYearSubmits` | app/src/main/java/com/shdwraze/team_testtask/NewPlayerScreen.kt:106 | a non-blank valid year reaches the callback, after name and surname, as a year from 1900 to the current year |
| `Form.SubmitDecimalYear` | app/src/main/java/com/shdwraze/team_testtask/NewPlayerScreen.kt:106 | a 32-bit year typed in decimal reaches the callback unchanged, as `(name, surname, year)` |
| `Form.EnabledButUnparsable` | app/src/main/java/com/shdwraze/team_testtask/NewPlayerScreen.kt:106 | with a year of "abc" and non-blank names, the button (line 58) is enabled, the year is invalid, and Save's `toInt()` fails |
| `Form.PaddedYearEnablesButFails` | app/src/main/java/com/shdwraze/team_testtask/NewPlayerScreen.kt:58-61 | any year from 1900 on followed by a space enables the button, shows the error, and makes Save fail |
| `Form.OutOfRangeYearStillSubmits` | app/src/main/java/com/shdwraze/team_testtask/NewPlayerScreen.kt:58-61 | a parseable year outside 1900 to the current year shows the error yet enables Save, which hands that year on |
| `Form.SaveAllowedIff` | app/src/main/java/com/shdwraze/team_testtask/NewPlayerScreen.kt:58-61 | corrected guard: button rule plus year rule holds exactly when the button rule holds and Save succeeds with a year from 1900 to the current year |
| `Form.NewPlayerForm.constructor` | app/src/main/java/com/shdwraze/team_testtask/NewPlayerScreen.kt:45-53 | all three fields start empty, so Save starts disabled and the year shows no error |
| `Form.NewPlayerForm.OnSurnameChange` | app/src/main/java/com/shdwraze/team_testtask/NewPlayerScreen.kt:74 | the surname takes the typed value; the other two fields are unchanged |
| `Form.NewPlayerForm.OnNameChange` | app/src/main/java/com/shdwraze/team_testtask/NewPlayerScreen.kt:82 | the name takes the typed value; the other two fields are unchanged |
| `Form.NewPlayerForm.OnYearOfBirthChange` | app/src/main/java/com/shdwraze/team_testtask/NewPlayerScreen.kt:91 | the year takes the typed value; the other two fields are unchanged |
| `Form.NewPlayerForm.Save` | app/src/main/java/com/shdwraze/team_testtask/NewPlayerScreen.kt:105-108 | pressed while enabled, Save succeeds exactly when the year parses; then the roster gains `Player(old size + 1, name, surname, year)` with the arguments in that order; otherwise the roster is unchanged |

`Form.NewPlayerForm.Save` calls `Roster.TeamViewModel.AddPlayer` because the
app wires the screen's callback to the holder's `addPlayer`
(app/src/main/java/com/shdwraze/team_testtask/TeamApp.kt:130).

## Findings

| source | as written | input that shows it | evidently intended | confidence | as-written member | corrected member |
|---|---|---|---|---|---|---|
| app/src/main/java/com/shdwraze/team_testtask/ui/TeamViewModel.kt:15 | a new id is the list size plus one | add, add, delete the first player, add: ids [2, 2] | ids unique among the players present, e.g. one past the largest id in use | high; not executed | `Roster.DeleteThenAddRepeatsId` | `Roster.FreshIdsStayDistinct` |
| app/src/main/java/com/shdwraze/team_testtask/NewPlayerScreen.kt:58 | Save is enabled by non-blankness alone, and its action calls `toInt()` | name "A", surname "B", year "abc" (or "1990 "): enabled, `toInt()` throws; year "1800": error shown, player added anyway | Save enabled only when the year is also valid | high; not executed | `Form.EnabledButUnparsable` | `Form.SaveAllowedIff` |

The corrected members are pure definitions beside the model of the code.
`Roster.TeamViewModel` and `Form.NewPlayerForm` keep the behaviour as
written: the size-plus-one id and the non-blankness guard.

## Left out

- The observable-flow plumbing (`MutableStateFlow`, `asStateFlow`, collection by the UI) is not modelled. The holder is a plain field. The model also leaves out that `addPlayer` mutates the published list in place without assigning `.value`, so observers are not notified.
- `Player`'s class is not part of this model. Its four fields come from the constructor call. Equality is value equality on the four fields.
- Roster.TeamViewModel.AddPlayer: ids and years are unbounded integers, so the overflow of `size + 1` past 2^31 - 1 is not modelled. It would need 2^31 players.
- Form.ToIntOrNull: only ASCII digits are accepted. The JVM's `Character.digit` also accepts other Unicode decimal digits, such as full-width ones.
- `IsWhitespace` is written out as the JVM's `isWhitespace`/`isSpaceChar` table. The proofs rely only on digits, signs and letters not being whitespace, and on the space being whitespace.
- `Calendar.getInstance().get(Calendar.YEAR)` becomes the `currentYear` parameter, of type `Int32` (a 32-bit value) in every member that takes it. The error message's text, which also embeds the current year, is a parameter of `Form.YearFieldLabel`.
- The `NumberFormatException` from `toInt()` becomes `Form.NumberFormatFailure`. The model does not cover the app crash that follows.
- Form.NewPlayerForm.Save requires an enabled button, because the UI framework never runs a disabled button's action. The `navigateUp()` after the callback is navigation and is not modelled.
- All layout, styling, colours, icons, resources and navigation are presentation only and are not modelled. `TeamApp.kt` is not part of this model, apart from the callback wiring noted above.
