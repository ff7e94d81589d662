# DrinkDatabase drink controller, modelled in Dafny

This project models the drink controller of the DrinkDatabase web application.
That controller is the part of the application that shows, edits and deletes
drinks and manages each drink's ingredient lines. The model covers:

- how the Edit POST turns form keys named `DeleteDrinkIngredients[<n>]` into a
  list of drink-ingredient IDs to delete. `String.Contains`, `IndexOf`,
  `Substring` and `int.TryParse` are modelled with the exceptions they raise,
  including `Contains` on the null key the form parser gives a body segment
  without `=`.
- how the Edit POST then splits the submitted ingredient lines. A line whose
  ID is in the deletion list is removed from the drink's collection and
  marked Deleted. Every other line is marked Modified.
- the AddIngredient POST's guard against adding an ingredient twice.
- the id guards of every action: 400, 404, or the exception that
  `SingleAsync`/`FirstAsync` raise when no row matches.
- the Edit GET's replacement of a null ingredient collection with an empty one.

Modules:

- `Wrappers`: `Option` and `Result`.
- `Entities`: drink-ingredient lines, ingredients, entity states, change-tracker
  entries, and the `Drink` class with its mutable line collection.
- `Responses`: action results and the .NET exceptions an action can end in.
- `Int32Parse`: the subset of `int.TryParse` the key parser relies on, with
  `FormatInt32` as its inverse.
- `DeletionKeys`: the per-key step `KeyIndex`, the list it folds to
  (`DeletionList`), and the loop `BuildDeletionList` proved equal to it.
- `DrinkLines`: the line loop as a fold (`MarkLines`) with its properties, and
  the add guard `AddLine`.
- `Controllers`: class `DrinkController`. Its database context is stood in for
  by maps from ID to row. The change tracker is an append-only log of the state
  assignments the actions make.

Where the code and the written description of the system differ, the model
follows the code:

- Details and the Edit GET look the drink up with `SingleAsync`, which raises
  when no drink has the id. The "not found" branch after that call is never
  reached. The model answers `Faulted(InvalidOperation)`, not 404.
- The AddIngredient POST looks the ingredient up with `FirstAsync`, which
  likewise raises rather than answering 404.
- The number inside `DeleteDrinkIngredients[...]` is compared with each
  submitted line's ID (`deletionList.Contains(item.ID)`). It is not its
  position in the list.
- The per-key loop parses the text between the key's FIRST `[` and the next
  `]`. That text is not necessarily the `[` of the marker.

## Model

| member | source | states |
|---|---|---|
| Int32Parse.TryParseInt32 | DrinkDatabase/Controllers/DrinkController.cs:104 | a successful parse yields a 32-bit value; text with no digit never parses |
| Int32Parse.ParseFormatRoundTrip | DrinkDatabase/Controllers/DrinkController.cs:104 | every 32-bit integer written in decimal parses back to itself |
| Int32Parse.ParseRejectsForeignChar | DrinkDatabase/Controllers/DrinkController.cs:104 | a character that is not a digit, a sign or white space anywhere in the text makes the parse fail |
| Int32Parse.ParseSound | DrinkDatabase/Controllers/DrinkController.cs:104 | whatever parses is white space, one optional sign, a non-empty run of digits and white space, and the result is the value the digits denote under that sign |
| Int32Parse.ParseComplete | DrinkDatabase/Controllers/DrinkController.cs:104 | conversely, white space, an optional sign, digits and white space parse to the value the digits denote exactly when it is a 32-bit integer, and fail otherwise |
| Int32Parse.ParseRejectsOverflow | DrinkDatabase/Controllers/DrinkController.cs:104 | a signed run of digits whose value lies outside the 32-bit range does not parse (no wrap-around) |
| DeletionKeys.IndexOfFrom | DrinkDatabase/Controllers/DrinkController.cs:102-104 | the result is the first position at or after the start holding the character, or -1 exactly when there is none |
| DeletionKeys.Contains | DrinkDatabase/Controllers/DrinkController.cs:98 | `String.Contains`: the marker occurs at some position of the key; no contract of its own, its meaning is the definition |
| DeletionKeys.Substring | DrinkDatabase/Controllers/DrinkController.cs:104 | succeeds exactly when the range lies inside the string, and then yields exactly the `length` characters from `start`; otherwise raises ArgumentOutOfRange |
| DeletionKeys.BracketText | DrinkDatabase/Controllers/DrinkController.cs:102-104 | fails with ArgumentOutOfRange exactly when the key's first `[` has no `]` after it; otherwise yields exactly the text between them |
| DeletionKeys.KeyIndex | DrinkDatabase/Controllers/DrinkController.cs:98-108 | a null key raises NullReference; a key without the marker adds nothing; a key with the marker raises ArgumentOutOfRange exactly when unclosed; it adds the parsed number exactly when the bracket text parses and the value is "on" |
| DeletionKeys.BuildDeletionList | DrinkDatabase/Controllers/DrinkController.cs:98-109 | the loop's result equals the fold of the per-key step over the form |
| DeletionKeys.Collect | DrinkDatabase/Controllers/DrinkController.cs:100-109 | the key loop as a fold over the form fields in order; no contract of its own, its meaning is given by CollectFails, CollectMembers, CollectGrows, CollectDropsIgnored and CollectFailureSticks |
| DeletionKeys.DeletionList | DrinkDatabase/Controllers/DrinkController.cs:98-109 | the deletion list the Edit POST builds; no contract of its own, its meaning is given by DeletionListMeaning, DropUnmarkedField and DeletionListGrows, and BuildDeletionList computes it |
| DeletionKeys.CollectFails | DrinkDatabase/Controllers/DrinkController.cs:100-109 | the loop raises exactly when some field's step raises, and then with the first such field's exception |
| DeletionKeys.CollectFailureSticks | DrinkDatabase/Controllers/DrinkController.cs:100-109 | once a field has raised, later fields change nothing |
| DeletionKeys.CollectMembers | DrinkDatabase/Controllers/DrinkController.cs:100-109 | a number is in the list exactly when some field's step adds it |
| DeletionKeys.CollectGrows | DrinkDatabase/Controllers/DrinkController.cs:100-109 | the list built from a prefix of the fields is a prefix of the full list |
| DeletionKeys.CollectDropsIgnored | DrinkDatabase/Controllers/DrinkController.cs:100-109 | a field whose step adds nothing can be removed without changing the outcome |
| DeletionKeys.DeletionListMeaning | DrinkDatabase/Controllers/DrinkController.cs:98-109 | the list fails exactly when some key is null or marked and unclosed, with NullReference or ArgumentOutOfRange as the first such field decides; otherwise `n` is in it exactly when the per-key step of some field adds `n` |
| DeletionKeys.DropUnmarkedField | DrinkDatabase/Controllers/DrinkController.cs:98-106 | a field with a non-null key that lacks the marker, or has it, is closed and is not "on", does not affect the list |
| DeletionKeys.DeletionListGrows | DrinkDatabase/Controllers/DrinkController.cs:98-109 | adding fields at the end only appends to the list |
| DrinkLines.RemoveFirstTakesOne | DrinkDatabase/Controllers/DrinkController.cs:118 | removing a line takes away one occurrence of it, if present, and nothing else |
| DrinkLines.RemoveFirst | DrinkDatabase/Controllers/DrinkController.cs:118 | `ICollection.Remove`; no contract of its own, its meaning is given by RemoveFirstTakesOne |
| DrinkLines.StateFor | DrinkDatabase/Controllers/DrinkController.cs:116-124 | the state the loop assigns a submitted line; no contract of its own, its meaning is given by MarkLinesTagsEachLine |
| DrinkLines.MarkLine | DrinkDatabase/Controllers/DrinkController.cs:115-124 | one iteration of the line loop; no contract of its own, its meaning is given by the MarkLines lemmas |
| DrinkLines.MarkLines | DrinkDatabase/Controllers/DrinkController.cs:114-125 | the line loop as a fold over the first `n` submitted lines; no contract of its own, its meaning is given by MarkLinesRemovesDeleted, MarkLinesTagsEachLine, MarkLinesOnNull and MarkLinesFaultIsFinal, and MarkSubmittedLines computes it |
| DrinkLines.DeletedLines | DrinkDatabase/Controllers/DrinkController.cs:116 | each submitted line is selected for deletion, with all its occurrences, exactly when its ID is in the list |
| DrinkLines.MarkLinesRemovesDeleted | DrinkDatabase/Controllers/DrinkController.cs:114-125 | on a present collection the loop never raises, and the collection loses exactly the deleted lines |
| DrinkLines.MarkLinesTagsEachLine | DrinkDatabase/Controllers/DrinkController.cs:114-125 | unless it raises, the loop makes one entry per submitted line, in order: Deleted exactly when the ID is in the list, else Modified |
| DrinkLines.MarkLinesOnNull | DrinkDatabase/Controllers/DrinkController.cs:116-118 | on a null collection the loop raises exactly when some submitted line is to be deleted |
| DrinkLines.MarkLinesFaultIsFinal | DrinkDatabase/Controllers/DrinkController.cs:114-125 | after the loop raises, later lines change neither the collection nor the entries |
| DrinkLines.KeptAndRemovedLines | DrinkDatabase/Controllers/DrinkController.cs:114-125 | lines not selected for deletion keep every occurrence; a selected line that occurred once is gone |
| DrinkLines.SubmissionOrderIrrelevant | DrinkDatabase/Controllers/DrinkController.cs:114-125 | the final collection, as a multiset, does not depend on the order the lines were submitted in |
| DrinkLines.DeletedLinesPermutation | DrinkDatabase/Controllers/DrinkController.cs:116 | permuting the submitted lines permutes the lines selected for deletion |
| DrinkLines.AddLine | DrinkDatabase/Controllers/DrinkController.cs:194-201 | null collection exactly when absent; refused exactly when a line already has the ingredient; otherwise exactly one new line linking drink and ingredient is appended; no-duplicate is preserved |
| DrinkLines.AddTwiceConflicts | DrinkDatabase/Controllers/DrinkController.cs:194-201 | adding the same ingredient twice adds one line and then answers Conflict |
| Entities.Drink.EnsureLines | DrinkDatabase/Controllers/DrinkController.cs:82-85 | afterwards the collection is present: unchanged if it was present, empty if it was null |
| Controllers.DrinkController.Details | DrinkDatabase/Controllers/DrinkController.cs:28-42 | 400 exactly without an id; InvalidOperation exactly when no drink has it; otherwise that drink's details page |
| Controllers.DrinkController.EditForm | DrinkDatabase/Controllers/DrinkController.cs:68-88 | 400 without an id; InvalidOperation for an unknown drink; otherwise the edit page, with a null collection replaced by an empty one and a present one kept; no other field of the drink changes |
| Controllers.DrinkController.EditSubmit | DrinkDatabase/Controllers/DrinkController.cs:93-138 | invalid fields change nothing; a failing deletion list raises before any change; otherwise the drink is marked Modified, then the line loop's entries and collection follow, and the answer is NullReference, the editable partial or the redirect |
| Controllers.DrinkController.MarkSubmittedLines | DrinkDatabase/Controllers/DrinkController.cs:112-126 | the loop's new collection, new entries and whether it raised equal the line-loop fold over the submitted lines |
| Controllers.DrinkController.DeleteForm | DrinkDatabase/Controllers/DrinkController.cs:141-153 | 400 exactly without an id, 404 exactly for an unknown drink, otherwise the delete page |
| Controllers.DrinkController.DeleteConfirmed | DrinkDatabase/Controllers/DrinkController.cs:158-164 | a known drink is marked Deleted and the answer is the redirect; an unknown one raises ArgumentNull and changes nothing |
| Controllers.DrinkController.AddIngredientForm | DrinkDatabase/Controllers/DrinkController.cs:165-181 | 400 exactly without an id, 404 exactly for an unknown drink, otherwise the add-ingredient page |
| Controllers.DrinkController.AddIngredient | DrinkDatabase/Controllers/DrinkController.cs:184-205 | 404 for an unknown drink; InvalidOperation for an unknown ingredient; then the add guard decides redirect, Conflict, or ArgumentNull from `Any` on a null collection; only the line collection can change; no-duplicate is preserved |
| Controllers.DrinkController.DrinkIngredientDetails | DrinkDatabase/Controllers/DrinkController.cs:207-221 | 404 exactly without an id, for an unknown line or for a line whose ingredient is missing; otherwise that line with its ingredient's name |
| Controllers.DrinkController.DrinkIngredientEdit | DrinkDatabase/Controllers/DrinkController.cs:223-240 | 404 in the same three cases; otherwise that line with its own ingredient preselected |
| Controllers.DrinkController.MissingIdOutcomes | DrinkDatabase/Controllers/DrinkController.cs:30-226 | a missing id is 400 for Details, Delete and AddIngredient (lines 30-32, 143-146, 167-170) but 404 for the two line fragments (lines 209-210, 225-226) |

## Left out

- Index and Create: they only list drinks or add the bound drink when the
  fields are valid, with no logic of their own beyond the validity gate.
- `SaveChangesAsync` and persistence: the change tracker is the log of state
  assignments. The Delete POST therefore marks the drink Deleted but does not
  remove it from the drink table.
- Asynchrony, `Dispose`, the views, `ViewBag`/`ViewData` contents, and the
  name ordering of the ingredient select lists.
- Anti-forgery validation, the `[Authorize]` attributes, and the client-side
  Edit script (`DrinkDatabase/Scripts/DrinkEditAjax.js`).
- Model binding and `ModelState` validation: these are parameters of
  `EditSubmit` (whether the fields are valid, the submitted lines, the form
  fields, whether the request is an AJAX one).
- The entity classes (the Models directory) are not part of this model.
  Whether a drink's line collection is loaded or null is therefore a parameter
  (`Option`), including for the drink bound by the Edit POST.
- DrinkLines.RemoveFirstTakesOne: `ICollection.Remove` on entities compares
  references. The model removes the first line equal in value, so aliasing
  between the bound lines and the loaded ones is not captured.
- Int32Parse.TryParseInt32: covers the default integer style (white space,
  one sign, decimal digits, 32-bit range). It does not cover the culture's
  sign symbols or trailing NUL characters.
- Form fields: each key carries the single string `Request.Form[key]`
  returns. Repeated keys joined with commas are not modelled separately.
- The drink-ingredient table that the two line fragments read is independent
  of the drinks' line collections. The model does not keep the two in step.
