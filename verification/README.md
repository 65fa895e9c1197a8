# Task manager store, modelled in Dafny

A model of the state layer of a single-page to-do list (`script.js`). The page
keeps an ordered collection of task records `{id, text, done}` (newest first) as
one serialized value under the key `"tasks"` of the browser's local store. Adding
a non-empty text, removing, and toggling a present id reload that collection,
change it, write it back, redraw the list and refresh the summary line
`You have N task(s) — C completed.`; an empty add does not touch the store, a
toggle of an absent id neither saves nor redraws, and finishing an edit writes
back the collection loaded when the edit began. Besides the
store, the page holds an error line, an entry field and an add button whose
disabled flag follows the field's trimmed value.

Modules:

- `Text` (`text.dfy`): JavaScript's `String.prototype.trim`, defined on the
  WhiteSpace and LineTerminator code points of the ECMAScript language
  specification, and the decimal digits a count prints as.
- `Tasks` (`tasks.dfy`): the `Task` record, `findIndex`, and what add, remove,
  toggle and edit do to the collection as functions on values (`AfterAdd`,
  `AfterRemove`, `AfterToggle`, `AfterEdit`), the invariant `WellFormed`
  (unique ids, non-empty trimmed texts), and the summary (`CountDone`,
  `Summarize`, `Sentence`, `MetaText`).
- `Storage` (`storage.dfy`): the stored value (`Blob`) with the cases loading
  tells apart, and the load fallback.
- `App` (`app.dfy`): the page as a class `TaskManager` whose fields are the
  stored value, the rendered list, the summary text, the error line, the entry
  field and the add button's flag. Each operation and event handler is a method
  that updates those fields in place and states its new state in terms of the
  functions of `Tasks` and `Storage`. Two invariants are carried through the
  methods: `Synced` (the list and the summary show exactly what is stored) and
  `ButtonRule` (the button is disabled exactly when the field trims to nothing).
- `Scenarios` (`scenarios.dfy`): the worked examples: two adds from an empty
  store, the summary before and after a toggle, the empty edit, and the plural
  rule.

Inputs the code takes from its environment are parameters: the id `makeId`
would produce is `freshId`, the edit field's value at commit time is
`fieldValue`, and the value the user types is the argument of `OnInput`.

## Model

| member | source | states |
|---|---|---|
| `Text.TrimStartSpec` | script.js:113 | the leading-trim keeps a suffix of the input, drops only whitespace, and what remains does not start with whitespace |
| `Text.TrimEndSpec` | script.js:113 | the trailing-trim keeps a prefix, drops only whitespace, and what remains does not end with whitespace |
| `Text.TrimSpec` | script.js:113 | `trim()` yields a string with no whitespace at either end, no longer than the input, and empty exactly when the input is all whitespace |
| `Text.TrimIsInfix` | script.js:113 | the trimmed text is a contiguous piece of the input surrounded only by whitespace |
| `Text.TrimOfTrimmed` | script.js:166 | a string without whitespace at its ends is returned unchanged by `trim()` |
| `Text.TrimIdempotent` | script.js:166 | trimming twice is the same as trimming once |
| `Text.Decimal` | script.js:50 | a count prints as at least one digit, only digits, with a leading zero only for zero |
| `Text.DecimalRoundTrip` | script.js:50 | reading the printed digits back yields the count |
| `Text.DecimalInjective` | script.js:50 | different counts print differently |
| `Tasks.FindIndex` | script.js:133 | the result is -1 exactly when no record has the id, otherwise the first position holding it |
| `Tasks.FindIndexSameIds` | script.js:133 | the position found depends only on the ids, position by position |
| `Tasks.AfterAdd` | script.js:118-119 | adding prepends one record `{freshId, trim(text), false}` and the old records follow unchanged and in order |
| `Tasks.AddWellFormed` | script.js:112-122 | with an id not already present, adding keeps ids unique and every text non-empty and trimmed |
| `Tasks.AfterRemove` | script.js:126 | the filtered collection is no longer than the input, holds no record with the id, and holds only records of the input |
| `Tasks.RemoveKeepsOthers` | script.js:126 | every record whose id differs survives the filter |
| `Tasks.RemoveAppend` | script.js:126 | the filter works piecewise over concatenation, so the survivors keep their order |
| `Tasks.RemoveAbsent` | script.js:126 | filtering an id nobody has returns the collection unchanged |
| `Tasks.RemoveUniqueLength` | script.js:125-129 | with unique ids, removing a present id drops exactly one record |
| `Tasks.RemoveWellFormed` | script.js:125-129 | removal keeps ids unique and texts valid |
| `Tasks.ToggleShape` | script.js:131-139 | toggling keeps the length, every id and every text, flips `done` at the first match only, and changes nothing when the id is absent |
| `Tasks.ToggleTwice` | script.js:131-139 | toggling the same id twice restores the collection |
| `Tasks.ToggleWellFormed` | script.js:131-139 | toggling keeps ids unique and texts valid |
| `Tasks.ToggleCount` | script.js:135 | toggling a present id moves the completed count by exactly one, down if it was done and up otherwise |
| `Tasks.EditShape` | script.js:164-172 | committing an edit never changes the length, an id or a `done` flag; only the edited record's text can change, to the trimmed value when that is non-empty, and it is kept on an empty value or a cancel |
| `Tasks.EditWellFormed` | script.js:164-172 | an edit keeps ids unique and texts valid |
| `Tasks.CountDone` | script.js:49 | the completed count is at most the total, zero exactly when no record is done, and the total exactly when all are |
| `Tasks.CountDoneUpdate` | script.js:49 | replacing one record changes the completed count by the change in its flag |
| `Tasks.Summarize` | script.js:47-49 | the summary reports the total as the length and a completed count no larger than it; the empty collection reports zero and zero |
| `Tasks.SentenceInjective` | script.js:50 | two summaries printed as the same sentence are the same summary |
| `Tasks.MetaTextReportsCounts` | script.js:47-51 | the summary line determines the total and the completed count of the collection |
| `Storage.SaveLoadRoundTrip` | script.js:17-31 | loading what was saved gives it back, and saving what was loaded from an array writes the same value (definitional at this abstraction of JSON) |
| `App.TaskManager.constructor` | script.js:192-195 | once the page has loaded, the stored collection is rendered, the summary describes it and the add button is disabled; an absent, empty, unparseable or non-array stored value silently shows the empty list and the zero summary |
| `App.TaskManager.ShowError` | script.js:41-45 | the error line shows the message and is displayed |
| `App.TaskManager.HideError` | script.js:44 | the deferred callback hides the error line |
| `App.TaskManager.UpdateMeta` | script.js:47-51 | the summary text describes the given collection |
| `App.TaskManager.SaveToStorage` | script.js:28-31 | the stored value becomes the serialized collection, which loads back as that collection, and the summary describes it |
| `App.TaskManager.RenderTasks` | script.js:59-69 | the list shows the given collection and the summary describes it, zero and zero when it is empty |
| `App.TaskManager.ClearInput` | script.js:53-56 | the field is empty and the button disabled, which satisfies the button rule |
| `App.TaskManager.AddTask` | script.js:112-123 | succeeds exactly when the text trims to something; on failure the store, list and summary are untouched and "Task cannot be empty!" is shown; on success the stored collection is the old one with the new record prepended, the page is in sync, and with a fresh id the invariant is kept |
| `App.TaskManager.RemoveTask` | script.js:125-129 | the store always receives the filtered collection (even when nothing matched), so a stored value that was not an array is overwritten by an empty array; the page is in sync, and the invariant is kept |
| `App.TaskManager.ToggleTask` | script.js:131-139 | with the id present the stored collection is the toggled one; with it absent nothing is saved or redrawn, so a stored value that was not an array stays as it was; the invariant is kept |
| `App.TaskManager.StartEditTask` | script.js:142-145 | no edit starts when the id is absent; otherwise the session holds the freshly loaded collection and the first position holding the id |
| `App.TaskManager.FinishEdit` | script.js:164-172 | the session's collection, with the text replaced only on a non-empty save, is always saved and rendered; the error shows exactly on a save whose value trims to nothing; the invariant is kept |
| `App.TaskManager.OnEditEvent` | script.js:158-162 | Enter and losing focus commit, showing the error exactly when the value trims to nothing; Escape writes back without changing the text and leaves the error line alone; other keys change neither the store, the page nor the error line |
| `App.TaskManager.OnInput` | script.js:188-190 | the button is disabled exactly when the new field value trims to nothing |
| `App.TaskManager.OnAddClick` | script.js:176-178 | a value that trims to something is added, the page synced, the field cleared and the error line left alone; otherwise the store, list, summary and field are kept and the error shown; the sync and button invariants are kept |
| `App.TaskManager.OnInputKey` | script.js:180-186 | Enter acts like the add button; Escape clears the field and leaves the store, list, summary and error line as they were; other keys change nothing at all |
| `Scenarios.PluralRule` | script.js:50 | "task" takes an "s" exactly when the total is not one |
| `Scenarios.SentenceEmpty` | script.js:61-67 | rendering the empty collection reports "You have 0 tasks — 0 completed." |
| `Scenarios.ScenarioTwoAdds` | script.js:112-123 | from an empty store, adding "Buy milk" then "Walk dog" gives the "Walk dog" record first, then "Buy milk", both undone |
| `Scenarios.ScenarioSummaries` | script.js:47-51 | that collection reads "You have 2 tasks — 0 completed.", and after toggling "Buy milk" "You have 2 tasks — 1 completed." |
| `Scenarios.ScenarioEmptyEdit` | script.js:164-168 | committing an empty edit of "Walk dog" leaves the collection as it was |

## Left out

- `makeId` (script.js:12-14) depends on the clock and a random source; the id it would return is the parameter `freshId`, and uniqueness is stated under the hypothesis that this id is not yet in the collection.
- Reads and writes of the local store are taken never to throw: `getItem` (script.js:18) sits outside the `try`, and a throwing `setItem` (script.js:29), for instance on a full quota, would abort the calling operation before it re-renders; neither exception is modelled.
- The fallback of `loadFromStorage` (script.js:17-26) is the definition of `Storage.Load` at this abstraction; what it means for the page is stated on `App.TaskManager.constructor`, `App.TaskManager.RemoveTask` and `App.TaskManager.ToggleTask`.
- `localStorage` and `JSON.parse`/`JSON.stringify` are not modelled: the stored value is the datatype `Blob`, whose `Records` case stands for any stored JSON array. An array whose elements are not `{id, text, done}` records is loaded by the code as it is; the model has no such case.
- The key `"tasks"` (script.js:7) and the `$` helper (script.js:10) have no counterpart; there is a single store.
- DOM construction in `renderTasks` (script.js:70-107) and the placeholder row (script.js:62-66): the rendered list is the field `shown`, a sequence of records.
- The edit field's DOM (script.js:147-156): its pre-filled value and focus are not modelled; its value at commit time is the `fieldValue` parameter.
- The 3-second timer of `showError` (script.js:44): `HideError` is the callback, but when it runs is not modelled.
- Re-entrant `finish` calls (a blur fired when the re-render removes the focused edit field) and any interleaving between `startEditTask` and `finish`: each call is a separate `FinishEdit`. The session writes back the collection loaded when the edit began, as the code does.
- Cross-tab races on the shared store; the model is sequential.
- The initial markup is not part of this model: the constructor assumes an empty field and a hidden, empty error line.
