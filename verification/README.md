# Todo store: a Dafny model

This project models the core of a browser todo-list application (`app.js`). The application keeps an in-memory
list of task records `{userId, id, title, completed}`, the *store*. It mirrors the store into local storage
under one key, the *mirror*. It changes the store only after a remote REST call for create, toggle or delete has
succeeded. The model consists of pure functions over `seq<Task>` and over a `State` holding the store and the
mirror. Each remote call's outcome is an input (`Succeeded` or `Failed`).

Modules, one per concern:

- `Options` (`options.dfy`): `Option`, which stands for JavaScript's `null` and `NaN` results.
- `Decimal` (`decimal.dfy`): how JavaScript writes an integer into a template string, and what the global
  `parseInt` does with no radix. That covers leading white space, a sign, the `0x` prefix, the longest digit
  run, and `NaN` when there are no digits.
- `Tasks` (`tasks.dfy`): the `Task` record and the list operations the handlers use. These are `filter` (as
  `Select`), the filter keywords, the count of incomplete tasks, removal by id, `find`, and the toggle of the
  first match.
- `View` (`view.dfy`): the text derived from a task. This covers the row element id `todo-<id>` and how it is
  read back (`replace` of the first occurrence, then `parseInt`), the row class, the toggle label, and the
  "n items left" label.
- `App` (`app.dfy`): the event handlers' state changes, namely startup from the mirror or the fetched list, create, delete, toggle,
  button dispatch, clear-completed, and whole sessions of events.

The model follows the code as written, also where it differs from what the code seems to intend:

- The submit handler's length test (app.js:10) reads `todoInput.length`. That is a property of the input
  element, not of its value. It is undefined, and `undefined < 3` is false, so no title is ever rejected. The
  model always issues the create request (`App.Step`, `App.EveryTitleIsStored`). There is no "at least 3
  characters" precondition.
- Task ids are not assumed unique. Delete removes every task with the id (app.js:29). Toggle flips only the
  first match (app.js:62, 91). Clear-completed therefore also removes an incomplete task that shares an id
  with a completed one (`App.ClearCompletedSharedId`).
- The empty-list placeholder (app.js:218) tests the whole store, not the filtered list. It is not modelled
  (see below).

## Model

| member | source | states |
|---|---|---|
| Tasks.FilterTodo | app.js:240-244 | the result keeps store order (a subsequence); under `"active"` it holds exactly the incomplete tasks with their multiplicities, under `"completed"` exactly the completed ones, and under any other keyword the whole store |
| Tasks.FilterPartition | app.js:240-244 | the active and completed views together are the store as a multiset, so their lengths add up to the store's length |
| Tasks.FilterIdempotent | app.js:240-244 | filtering a filtered view again with the same keyword changes nothing |
| Tasks.Select | app.js:29 | `Array.prototype.filter`: the result is a subsequence of the input holding every element that passes the test, as often as it occurs, and no other element |
| Tasks.CountActive | app.js:231 | the count is at most the store's length, equals the length minus the completed view's length, and is zero exactly when every task is completed |
| View.CountLabel | app.js:232 | the label is "1 item left" for 1 and "<n> items left" otherwise (including 0), and `parseInt` reads the count back from it |
| View.UpdateTodoCount | app.js:229-233 | the label reads "1 item left" when exactly one task is incomplete and "<n> items left" for any other count n of incomplete tasks; `parseInt` of it gives that count; a store with no incomplete task shows "0 items left" |
| View.RowClassTokens | app.js:198 | the class names of the row's class attribute (`View.RowClass`) are `todo-item`, followed by `completed` exactly when the task is completed |
| View.RenderRow | app.js:196-213 | the row's element id is `todo-<id>`, and from the row alone you can read back the task's id (through the element id), its completion flag (through the class, and through the toggle label "Undo"/"Complete"), and its title |
| View.ToggleLabel | app.js:204 | the toggle button reads "Undo" exactly for a completed task and "Complete" exactly for an incomplete one |
| View.ElementIdRoundTrip | app.js:199 | for every integer id, writing `todo-<id>`, replacing the first `todo-` by nothing and applying `parseInt` gives the id back |
| View.ElementIdInjective | app.js:199 | different task ids give different row element ids |
| View.ElementId | app.js:199 | the row element id starts with `todo-`, and reading it back as the click handler does gives the task id |
| View.ParseElementId | app.js:61 | an element id starting with `todo-` is read as `parseInt` of the rest; one with no `todo-` anywhere is read as `parseInt` of the whole |
| View.ReplaceLeading | app.js:61 | `replace` of the pattern a string starts with, by nothing, leaves the rest of the string |
| View.StripPrefix | app.js:61 | `replace` of a pattern that starts the string strips exactly that prefix |
| View.IndexOfFrom | app.js:61 | the position found is an occurrence of the pattern and no earlier position is; when none is found, the pattern occurs nowhere from the start position on |
| View.ReplaceFirst | app.js:61 | a string without the pattern is returned unchanged; otherwise the first occurrence, wherever it is, is replaced and the text around it is kept |
| Decimal.ParseFormatInt | app.js:61 | `parseInt` reads back every integer, negative ones included, from the text a template string writes for it |
| Decimal.ParseFormatNat | app.js:232 | `parseInt` reads a natural number back from its digits when they are followed by a character that cannot continue the number |
| Decimal.ParseMinusDigits | app.js:61 | a minus sign followed by a magnitude's digits parses to the negated magnitude |
| Decimal.FormatNat | app.js:232 | the decimal text of a count is a non-empty string of digits with no leading zero |
| Decimal.FormatInt | app.js:199 | the text written for an integer is non-empty and starts with a minus sign exactly when the integer is negative |
| Decimal.ValueOfFormatNat | app.js:232 | the decimal digits written for a natural number have that number as their value |
| Decimal.ParseInt | app.js:61 | a string with no decimal digit at all parses to `NaN` |
| Tasks.RemoveId | app.js:29 | delete keeps store order, drops every task carrying the id, keeps every other task as often as it occurred, and its id set is the old one minus the id |
| Tasks.RemoveIdCommutes | app.js:29 | removals of two ids give the same store in either order |
| Tasks.RemoveAbsentId | app.js:29 | removing an id no task carries leaves the store unchanged |
| Tasks.RemovePrepended | app.js:128 | removing the id of a task just put in front removes it again, and gives back the old store when the id was new |
| Tasks.FindFirst | app.js:62 | `find` gives the first position carrying the id; it finds nothing exactly when no task carries the id |
| Tasks.FlipFirst | app.js:91 | toggle keeps length, order, ids, owners and titles; a task's flag changes exactly when it is the first task carrying the id |
| Tasks.FlipFirstTwice | app.js:91 | toggling the same id twice restores the store |
| Tasks.FlipOnly | app.js:89-91 | toggling the id of a store's only task inverts that task's flag and nothing else |
| App.Startup | app.js:172-194 | a stored list, even an empty one, becomes the store and the mirror is left as it is; otherwise a fetched list becomes the store and is written through; a failed fetch leaves the empty store and no mirror; the mirror equals the store exactly when a list was stored or fetched |
| App.Commit | app.js:147-149 | a confirmed change makes the given list the store and writes it through, so the mirror equals the store |
| App.EmptyMirrorIsPresent | app.js:151-154 | an empty stored list counts as present: it becomes the store and the fetched list is ignored |
| App.Create | app.js:105-146 | on success the new store is the task `{userId: 1, id, title, completed: false}` followed by the old store, and the mirror equals it; on failure nothing changes |
| App.Delete | app.js:20-45 | on success every task carrying the id goes, every other task stays in order and as often as it occurred, and the mirror equals the store; on failure nothing changes |
| App.Toggle | app.js:73-103 | on success the store is the first-match toggle of the old one and the mirror equals it; on failure nothing changes |
| App.CreateThenDelete | app.js:128 | a confirmed create followed by a confirmed delete of the same new id gives back the old store |
| App.ToggleTwice | app.js:89-93 | two confirmed toggles of the same id give back the old store |
| App.DeleteCommutes | app.js:248-254 | two deletions give the same store and mirror in either order, whatever their outcomes |
| App.HandleTodoAction | app.js:56-71 | a click does nothing when the element id does not parse, when no task carries the parsed id, when the action is neither toggle nor delete, or when the request fails; when a task carries the id, toggle and delete act on that id; the state is either unchanged or has the mirror equal to the store |
| App.ClickOnRow | app.js:56-71 | clicking toggle or delete in the row rendered for a task of the store toggles or deletes that task's id |
| App.DeleteAll | app.js:251-253 | applying delete requests in turn removes exactly the tasks whose id had a successful request; with no success nothing changes, otherwise the mirror ends equal to the store |
| App.DeleteAllOrderIrrelevant | app.js:251-253 | the same delete requests completing in any order give the same state |
| App.ClearRequests | app.js:249-250 | clear-completed calls delete once per task in the completed view, in store order, with that task's id; whether the call ends in a confirmed deletion is its outcome |
| App.CompletedView | app.js:249-250 | the completed view holds exactly the completed tasks of the store |
| App.ClearedIdsCompleted | app.js:249-253 | only ids of completed tasks are ever removed by clear-completed |
| App.ClearedIdsAll | app.js:249-253 | when every request succeeds, the id of every completed task is removed |
| App.ClearCompleted | app.js:248-254 | the result keeps the store's order and removes exactly the tasks whose id had a successful request; so only tasks of the store remain, a task whose id no completed task carries always remains, and when every request succeeds no completed task remains; with no successful request nothing changes; otherwise the mirror equals the store |
| App.ClearCompletedUniqueIds | app.js:248-254 | with unique ids and every request succeeding, the result is exactly the active view, in order |
| App.ClearCompletedSharedId | app.js:29 | when every request succeeds, any task sharing its id with a completed task is removed by clear-completed, incomplete ones included |
| App.ClearCompletedAllFailed | app.js:248-254 | a clear-completed whose delete requests all fail leaves the store and the mirror unchanged |
| App.Step | app.js:8-17 | an event either leaves the state unchanged or leaves the mirror equal to the store; choosing a filter never changes it; a failed submit or click changes nothing |
| App.EveryTitleIsStored | app.js:10-15 | every title, including the empty one and those shorter than three characters, is submitted and, on success, stored in front as a new incomplete task of user 1 |
| App.Run | app.js:256-265 | over any sequence of handled events (clicks in the list, filter choices, clear-completed, submits), a synchronised state stays synchronised, and any state that changed ends synchronised |
| App.Session | app.js:255-270 | a session that started from a stored or fetched list always ends with the mirror equal to the store; otherwise it ends synchronised or still at the empty store with no mirror |
| App.ToggleScenario | app.js:89-94 | for any id and title, toggling the only task, incomplete, with a successful request completes it, its button reads "Undo" and the count reads "0 items left" |
| App.CompletedOnlyTask | app.js:229-233 | a store whose only task is completed shows "Undo" on that task's button and "0 items left" |
| App.ToggleOnlyTask | app.js:56-71 | a successful toggle click on the row of a store's only task leaves that task flipped as the whole store |

## Left out

- JSON serialisation for local storage and for the REST bodies: the mirror is modelled as a copy of the store
  (`Option<Store>`, where `None` means nothing is stored). A stored value always parses back to the list that
  was saved. Storage errors are not modelled.
- `fetch`, HTTP statuses and the REST endpoint: each remote call is reduced to a `Succeeded`/`Failed` input. On
  startup it is the fetched list or `None`.
- DOM construction and rendering: `innerHTML`, `replaceWith`, `insertBefore`, the "No todos found." placeholder,
  the filter buttons' `active` class, opacity transitions, `setTimeout` and `requestAnimationFrame`. After a
  toggle the filter is re-applied to the view (app.js:96); that only affects rendering and is not modelled.
- UI side effects: alerts, the error banner and its messages, the loading box, disabled buttons, the
  "deleting" class, clearing the input, and the call to the undefined `showError` at app.js:141. The store is
  already untouched on that path. Titles are inserted into HTML unescaped; the model keeps the title as text.
- `Date.now()` id generation and its collision risk: the id of a new task is a parameter.
- JavaScript number precision: ids and counts are unbounded integers. Numbers above 2^53 lose precision, and
  numbers of 10^21 or more print in exponent form; neither is modelled.
- Concurrency: clear-completed's deletions run concurrently in the source. They are modelled as applied one
  after another, and `App.DeleteAllOrderIrrelevant` shows that the order does not matter. Events that
  interleave with a pending request are not modelled. In the source a toggle flips the record object captured
  at click time, even if that record has since left the store.
- Decimal.ParseInt: skips only ASCII white space, the no-break space and the byte-order mark before the number,
  not every Unicode space or line terminator that `parseInt` skips. Element ids never start with white space.
  Its contract states only that a string with no decimal digit gives `NaN`; `Decimal.ParseFormatInt` states the round
  trip.
- View.ClassTokens: splits a class attribute on spaces only, not on every ASCII white-space character. The rows'
  class attributes contain only spaces.
- View.ToggleLabel: is the button's word without the white space around it in the markup.
- App.ClearRequests: assumes every completed task's row is on the page. `deleteTodo` looks up the row `todo-<id>`
  and marks it "deleting" before its `try` (app.js:21-22). When the "active" filter is shown, only the rows of
  incomplete tasks are on the page (app.js:240-245). A call for a completed task whose id no shown row carries
  therefore throws before any request is sent. The model can express that only by giving that request the outcome
  `Failed`; `App.ClearCompletedAllFailed` shows that when every call fails this way the state is unchanged, as in
  the source. A completed task that shares its id with a shown incomplete task finds that task's row, so its
  request is sent. On success both tasks go (app.js:29), which the model covers with the outcome `Succeeded`
  (`App.ClearCompletedSharedId`).
- `updateTodoElement`'s check that the row exists (app.js:49) is rendering only.
