# Todo list page, modelled in Dafny

The page keeps a list of todos. Each todo has a text, a `complete` class, a
display state and a `fall` class that marks it for removal. The page also has
a filter select with the values "all", "complete" and "incomplete", and two
local-storage entries, `todoContent` and `todoCompleteStatus`. Its handlers
do four things:

- add a todo from the input field;
- toggle or remove a todo when one of its buttons is clicked;
- re-run the filter when the select changes;
- re-render the stored list when the page loads.

After every add, toggle and completed removal, and after each stored todo it
loads, the page rewrites both storage entries. Marking a todo for removal and
changing the filter do not write storage, because neither changes what would
be stored.

The model follows `app.js` handler by handler:

- `todo_model.dfy` (module `TodoModel`) holds the values:
  - the todo record and the storage record;
  - the filter rule for one todo, and the list after the filter has run (`Filtered`);
  - the two arrays the page stores (`Texts`, `Codes`);
  - what load leaves behind, in closed form (`Loaded`) and round by round (`LoadedAfter`);
  - the lemmas that connect these.
- `app.dfy` (module `App`) holds the class `TodoPage`. Its fields are the rendered list, the selected filter value and the storage. It has one method per handler:
  - the filter loop and the persisting loop are `while` loops proved against `Filtered`, `Texts` and `Codes`;
  - each method that changes the list states the new list;
  - `Persist`, add (of a non-empty text), toggle and completed removal state that storage again equals the serialization of the list (`Synced`);
  - load states `Synced` when it loads at least one todo, and otherwise leaves storage as it was: on a first visit both entries stay absent while the list is empty, so storage does not mirror it;
  - marking for removal (`MarkForRemoval`) and changing the filter (`FilterTodo`) state that they keep `Synced` when it held before;
  - `ApplyFilter`, the filter loop on its own, does not touch storage, and its callers state what storage holds.

On these points the model follows `app.js` as written:

- Only the exact empty string is rejected. Text consisting only of whitespace is added like any other text.
- On load, a status array of a different length from the text array is not treated as corrupt:
  - extra status entries are ignored;
  - a missing status entry reads `undefined`, so that todo loads as incomplete.
- Without a `todoContent` entry, load throws on an undeclared name before adding anything.
- Without a `todoCompleteStatus` entry, the status array is `null`. The first stored text is added, incomplete and persisted, and then indexing `null` throws. Only that one todo is loaded (`LoadCount`), and because that persist overwrites both entries, the other stored texts are lost from storage too.
- Load sets a todo's `complete` class after `addTodo` has already run the filter over it. The next `addTodo` runs the filter again, so every loaded todo except the last ends up displayed by the filter rule. The last one keeps the display of a new, incomplete todo (`Loaded`, see Findings).

## Model

| member | source | states |
|---|---|---|
| TodoModel.Filtered | app.js:114-152 | each todo stays in place and only its display changes, as the rule for that todo says; under "all" every todo is displayed, under "complete" exactly the complete ones, under "incomplete" exactly the incomplete ones; any other value leaves the list as it was (the switch has no default case) |
| TodoModel.Texts | app.js:159-172 | the stored `todoContent` array has one entry per rendered todo, in list order, and entry i is the text of todo i |
| TodoModel.Codes | app.js:164-171 | the stored `todoCompleteStatus` array has one entry per rendered todo; entry i is 1 exactly when todo i is complete and 0 exactly when it is not |
| TodoModel.LastShownAsNew | app.js:189-194 | the last todo is displayed again as a new, incomplete todo would be (shown unless the filter is "complete"); all other todos are unchanged |
| TodoModel.Loaded | app.js:179-196 | load appends one todo per stored text, up to the point where it throws; these todos come in stored order, each with its stored text, complete exactly when its status entry is 1, and not falling; when nothing is loaded (no `todoContent` entry, or an empty one) nothing changes; earlier todos keep their text and flags; every todo but the last loaded one displays as the filter says, and the last one displays unless the filter is "complete" |
| TodoModel.LoadedAfterRounds | app.js:189-195 | after k rounds of the load loop (add the text, run the filter, set complete if the status is 1), the list equals the filter run over the old list plus the first k stored todos, with the k-th keeping the display of a new todo |
| TodoModel.LoadedAfterAll | app.js:189-195 | after all its rounds, the load loop leaves exactly `Loaded` |
| TodoModel.PersistThenLoad | app.js:154-196 | persisting a list and loading it into an empty page gives back a list of the same length with the same texts and complete flags in the same order, and storage afterwards is exactly what was read |
| TodoModel.AddedAtEnd | app.js:33-73 | after an add the list is one longer; the new last todo has the given text and is neither complete nor falling; earlier todos keep their order, text, complete and falling flags; every display agrees with the filter |
| TodoModel.ToggledOne | app.js:96-107 | toggling todo i flips the complete flag of that todo only; texts and falling flags are unchanged; every display agrees with the filter |
| TodoModel.ToggleTwice | app.js:101-104 | toggling the same todo twice, with the filter run after each toggle, restores a list whose display already agreed with the filter |
| TodoModel.ToggleTwiceFiltered | app.js:101-104 | for any list, toggling the same todo twice with the filter run after each toggle gives the list with the filter run once |
| TodoModel.StatusFiltersPartition | app.js:133-149 | every todo is displayed under exactly one of "complete" and "incomplete" |
| TodoModel.LastLoadedStaysHidden | app.js:189-194 | a stored complete todo loaded last while "complete" is selected stays hidden |
| TodoModel.LoadedAsIntended | app.js:189-194 | the intended load appends the same todos as `Loaded` (stored order, stored text, complete exactly when the status entry is 1, not falling) and keeps the earlier todos' text and flags, and every display agrees with the filter |
| TodoModel.LastLoadedShownAsIntended | app.js:189-194 | under the intended load the same todo is displayed |
| TodoModel.LoadedVersusIntendedAt | app.js:189-194 | entry by entry, the load as written equals the intended one except for the display of the last loaded todo, and one more filter run makes each entry equal |
| TodoModel.LoadDiffersOnlyInLastDisplay | app.js:189-194 | the load as written and as intended have the same length and agree on every todo but the last; running the filter over the list as written gives the intended list |
| App.TodoPage.ApplyFilter | app.js:114-152 | the loop over the rendered todos leaves exactly `Filtered` of the old list |
| App.TodoPage.Persist | app.js:154-177 | the loop that pushes text and status for each todo leaves storage equal to the serialization of the list, with both entries present |
| App.TodoPage.AddTodo | app.js:33-73 | the new todo goes at the end, the filter is run and the list is persisted; the returned position is that of the new todo |
| App.TodoPage.AddTodoFromEvent | app.js:22-31 | the empty string leaves list and storage untouched; any other input adds one todo with that text at the end, runs the filter and persists |
| App.TodoPage.ToggleComplete | app.js:96-107 | the list becomes the filter run over the list with todo i's complete flag flipped, and storage mirrors it |
| App.TodoPage.MarkForRemoval | app.js:82-87 | only todo i changes, gaining the fall flag; it stays in the list; what would be stored is unchanged; being in sync and agreeing with the filter are preserved |
| App.TodoPage.CommitRemoval | app.js:88-92 | exactly todo i is removed, the others keep their relative order, storage mirrors the new list, and agreement with the filter is preserved |
| App.TodoPage.FilterTodo | app.js:110-112 | the selected value becomes the filter, the list is `Filtered` by it and agrees with it, storage is untouched, and storage still mirrors the list if it did before |
| App.TodoPage.ReadOne | app.js:189-194 | one load round: the text is added as a new todo and, if its status is 1, marked complete and persisted again; it throws exactly when the status array is absent; storage mirrors the list |
| App.TodoPage.MarkComplete | app.js:191-193 | the just-loaded todo gets the complete class without another filter run, and storage mirrors the list |
| App.TodoPage.ReadTodos | app.js:179-196 | the page holds exactly `Loaded` of the old list and storage; storage is untouched when nothing is loaded and mirrors the list otherwise |

## Left out

- The DOM: elements, class names, icon markup and `appendChild` are reduced to the todo record; a todo's `style.display` is the `visible` flag.
- Event wiring, `preventDefault`, `console.log` and clearing and focusing the input field. The click handler is modelled as its two branches, `ToggleComplete` and `MarkForRemoval`, and the clicked button is identified by the todo's index. That index is required to be in the list, because a clicked button always belongs to a rendered todo. A click on the icon inside a button, which matches neither branch, is not modelled.
- The timing of CSS transitions: `CommitRemoval` is the `transitionend` callback as an explicit step, and it requires the todo to be falling because only a marked todo has that listener. Whether the event fires, and the duplicate listeners a second click on the same remove button registers, are not modelled.
- JSON encoding and decoding: the storage entries are held as the arrays they encode, and an absent key is `None`. Other local-storage keys, and stored values that are not such arrays, are not modelled.
- `innerText` is taken to be exactly the text given to `addTodo`.
- App.TodoPage.ReadTodos: the intermediate storage writes during load are not stated, only the final storage.

## Findings

| source | as written | input that shows it | evidently intended | confidence | as-written member | corrected member |
|---|---|---|---|---|---|---|
| app.js:189-194 | load sets the complete class after `addTodo` ran the filter, and nothing runs the filter again after the last round | storage `todoContent` ["a"], `todoCompleteStatus` [1], with "complete" selected when the page loads (the browser restores the select) | every todo displays as the selected filter says once load is done, as after a toggle (app.js:104) | medium, not executed | TodoModel.LastLoadedStaysHidden | TodoModel.LoadedAsIntended |

`App.TodoPage.ReadTodos` models the load as written. `TodoModel.LoadDiffersOnlyInLastDisplay` shows how it differs from the intended load. The two differ only in the display of the last loaded todo, and the next run of the filter removes the difference.
