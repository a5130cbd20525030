# Task-list store of a single-component to-do editor

This project models the store logic inside the `App` component of a small React
to-do editor. The component keeps an ordered list of task records
`{id, title, completed}` in its `todos` state, which is `null` until the initial
load publishes a list. It also keeps a module-level `nextId` counter and a
pending label for the entry form. Handlers replace the list:

- the load sets `nextId` to one more than the largest of 0 and the loaded ids;
- submit prepends a record carrying `nextId++` and the trimmed label;
- the checkbox and the text field each `map` the list, replacing records by id;
- the delete button `filter`s records out by id.

Layout:

- `text.dfy` (module `Text`): `String.prototype.trim` over ECMAScript whitespace,
  with an independent characterisation (`TrimIsMiddle`) and idempotence.
- `todo_list.dfy` (module `TodoList`): the `Todo` record and the pure expressions the
  handlers evaluate (`Math.max(0, ...ids)`, the two `map`s, the `filter`). It also
  holds the list invariants (ids below the counter, unique ids) and the lemmas that
  the operations keep them.
- `app.dfy` (module `App`): the loading gate `Loading | Ready(todos)` (the `null`
  initial state of src/App.js:10, tested at src/App.js:119-123), the
  submit-enabled predicate, and the class `TodoApp`. Its fields `state`, `nextId` and
  `pendingLabel` are replaced by one method per handler. Each method is proved
  against the pure functions and keeps the invariant `Valid()`: once loaded,
  `nextId >= 1` and every id is below `nextId`. A method that is given a list with
  unique ids leaves the ids unique.

Three behaviours of the source that the model keeps:

- The submit handler (src/App.js:64-73) does not check the trimmed label. Only the
  button's `disabled` flag (src/App.js:136) prevents an empty submission, so
  `TodoApp.Submit` has no no-op branch and `SubmitEnabled` is a separate predicate.
- The `filter` (src/App.js:111-114) removes every record with the id
  (`RemoveByIdLength`). Under unique ids that is exactly one record
  (`RemoveByIdUnique`).
- The update handlers build the replacement from the record captured at render time
  (`...todoToChange`), not from the list's current element, and match by id only.

## Model

| member | source | states |
|---|---|---|
| `TodoList.MaxId` | src/App.js:34 | `Math.max(0, ...ids)`: non-negative, at least every id, and either 0 or one of the ids |
| `TodoList.Ids` | src/App.js:30 | the mapped id list has one entry per record, in order |
| `TodoList.InitialNextId` | src/App.js:30-37 | the counter after loading is at least 1 and above every loaded id; it is 1 or one more than a loaded id, and 1 for an empty list |
| `App.TodoApp.constructor` | src/App.js:5-10 | the component starts in `Loading` (todos `null`) with an empty pending label |
| `App.TodoApp.Load` | src/App.js:15-41 | publishes the loaded list unchanged and sets `nextId` to `InitialNextId` of it, establishing the invariant |
| `App.TodoApp.ChangePendingLabel` | src/App.js:60-62 | replaces the pending label and changes nothing else |
| `Text.Trim` | src/App.js:69 | the trimmed label is the infix after the leading whitespace; only whitespace lies outside it, and a non-empty result starts and ends with non-whitespace |
| `Text.TrimIsMiddle` | src/App.js:69 | whitespace + middle + whitespace trims to the middle whenever the middle is empty or has non-whitespace ends |
| `Text.TrimIdempotent` | src/App.js:69 | trimming an already trimmed label changes nothing |
| `Text.TrimEmptyIff` | src/App.js:136 | the trimmed label is empty iff every character of the label is whitespace |
| `App.SubmitEnabled` | src/App.js:136 | the button is enabled exactly when the label is not all whitespace |
| `App.SubmitEnabledMeaning` | src/App.js:136 | the button is enabled iff the label holds a non-whitespace character; then the created title is non-empty with non-whitespace ends |
| `App.TodoApp.Submit` | src/App.js:64-73 | the list becomes `[{id: old nextId, title: trim(label), completed: false}] + old list`, `nextId` grows by exactly 1, the label is cleared; when the button was enabled the new title is non-empty; the new id was absent and unique ids stay unique |
| `TodoList.NewTodo` | src/App.js:67-71 | the created record carries the given id and is not completed; its title (the trimmed label) is empty iff the label is all whitespace, and otherwise has non-whitespace ends |
| `TodoList.CreateKeepsInvariants` | src/App.js:67-72 | if every id is below `n`, then `n` is absent, the list with the new record prepended has every id below `n + 1`, and uniqueness is kept |
| `TodoList.ReplaceById` | src/App.js:76-88 | same length; records with another id stay at their position, records with the id become the replacement |
| `TodoList.SetCompleted` | src/App.js:75-91 | same length and same id sequence; records with another id unchanged; matching records become `todoToChange` with `completed := newCompleted` |
| `TodoList.SetTitle` | src/App.js:93-109 | same length and same id sequence; records with another id unchanged; matching records become `todoToChange` with the title set to `newText` verbatim |
| `TodoList.UpdateAbsentIsIdentity` | src/App.js:76-106 | with an id not in the list, both update handlers return the list unchanged |
| `TodoList.ReplaceByIdIdempotent` | src/App.js:76-88 | replacing by id twice with the same arguments is replacing once |
| `TodoList.SetCompletedIdempotent` | src/App.js:75-91 | setting completion twice with the same arguments equals setting it once |
| `TodoList.SetTitleIdempotent` | src/App.js:93-109 | setting the title twice with the same arguments equals setting it once |
| `TodoList.SameIdsKeepInvariants` | src/App.js:84-87 | an update that keeps the id sequence keeps "every id below the counter" and id uniqueness |
| `App.TodoApp.ChangeCompleted` | src/App.js:75-91 | the list becomes `SetCompleted` of the old one; counter and label unchanged; invariant and uniqueness kept |
| `App.TodoApp.ChangeText` | src/App.js:93-109 | the list becomes `SetTitle` of the old one; counter and label unchanged; invariant and uniqueness kept |
| `TodoList.RemoveById` | src/App.js:111-114 | the result is no longer, and a record is in it iff it is in the input with another id |
| `TodoList.RemoveByIdMultiplicity` | src/App.js:111-114 | each record with another id keeps its multiplicity; records with the id have none |
| `TodoList.RemoveByIdAppend` | src/App.js:111-114 | the filter distributes over concatenation, so relative order is preserved |
| `TodoList.RemoveByIdAbsent` | src/App.js:111-114 | deleting an id that is not present leaves the list unchanged |
| `TodoList.RemoveByIdLength` | src/App.js:111-114 | the result is shorter by exactly the number of records carrying the id (every match is removed) |
| `TodoList.RemoveOnlyMatch` | src/App.js:111-114 | a record whose id occurs nowhere else is the only one removed |
| `TodoList.RemoveByIdUnique` | src/App.js:110-117 | under unique ids, deleting the id of the record at `k` gives the list without position `k` |
| `TodoList.RemoveByIdKeepsInvariants` | src/App.js:110-117 | deleting keeps every id below the counter and keeps ids unique |
| `App.TodoApp.Delete` | src/App.js:110-117 | the list becomes `RemoveById` of the old one by the record's id; counter and label unchanged; invariant and uniqueness kept |

## Left out

- Reading and writing `localStorage` and the effect that saves the list after every change (src/App.js:18-21, 51-58): browser I/O. The list the load obtains is a parameter of `TodoApp.Load`.
- The `fetch` of the seed URL and `response.json()` (src/App.js:23-26): network I/O, which may never complete. If it never completes, the component stays in `Loading`, and the model can stay in `Loading` too.
- `JSON.parse` and `JSON.stringify`: foreign library calls. The source does not validate the parsed shape, so the model assumes records with an integer `id`, a string `title` and a boolean `completed`. Extra fields of parsed records, which the `...todoToChange` spread would copy, are not represented.
- `Math.max` over non-numeric ids (a `NaN` counter) is not modelled: ids are integers.
- JavaScript numbers are doubles, so `nextId++` past 2^53 loses precision. The model's integers are unbounded.
- React hooks, the asynchronous `loadInitialTodos` wrapper and its scheduling: framework plumbing. Each handler is one atomic method call.
- JSX rendering, the strikethrough style and the loading message (src/App.js:119-169): presentation. Only the button's enabling condition (src/App.js:136) is modelled.
- Before the load, `nextId` is `undefined`. The model stores 0 there. It is never read then, because the handlers that use it require `state.Ready?`: the form and list are only rendered once `todos` is not `null`.
