# To-do list page: a Dafny model

`script.js` runs a browser to-do list. It keeps the tasks in a module-level
array. It stores them as JSON in `localStorage` under the key
`todo-app/tasks`. It shows them as rows of the `#tasks` list. Three handlers
change that state in place: submit, toggle completed, and delete.

This project models that state and those handlers.

- `TodoApp.App` is a class. Its fields are the task collection (`tasks`), the
  row order of the list (`rows`), the storage (`storage`), and the two
  empty-state markers.
- Each handler is a method with a `modifies` clause. Its `ensures` ties the
  new state to pure functions of the old state.
- Those functions are defined in these modules, with their properties proved
  as lemmas:
  - `Seqs`: the array helpers `find`, `filter` and detach;
  - `Text`: `String.prototype.trim`;
  - `Tasks`: the task collection;
  - `Display`: the sort `renderTasks` applies;
  - `Rows`: the incremental row updates;
  - `Sync`: the rows stay a reordering of one row per task.
- `Scenarios` walks through concrete runs.

A row is modelled as its `data-task-id` and whether it carries the
`completed` class. `crypto.randomUUID()` and `Date.now()` are parameters of
`Submit`. The fresh id is required not to be in use.

## Model

| member | source | states |
|---|---|---|
| Text.Trim | script.js:16 | The trimmed title is the input with a blank prefix and a blank suffix removed. It neither starts nor ends with ECMAScript whitespace. It is empty exactly when the input is all whitespace. |
| Text.TrimBothBlank | script.js:16-17 | Trimming leaves nothing exactly when the title is all whitespace, which is the case the handler rejects. |
| Text.TrimIdempotent | script.js:16 | Trimming an already trimmed title changes nothing. |
| TodoApp.App.Submit | script.js:13-36 | A blank title changes nothing. Otherwise: one incomplete task with the trimmed title, the given id and the given time is appended; the collection is stored; a row is appended at the end; the markers are updated. The id set gains the id. The rows stay partitioned exactly when they were partitioned and no row was completed. Sync and unique ids are preserved. |
| TodoApp.App.AddTask | script.js:29-32 | For a fresh incomplete task: the task is appended and stored, its row is appended, and the markers are updated. The id set gains the id. Partition holds afterwards exactly when it held before and no row was completed. Sync and unique ids are preserved. |
| TodoApp.App.AppendTask | script.js:29-30 | The collection gains the task at the end, and the stored document reloads to the new collection. |
| Sync.SubmitKeepsStep | script.js:29-31 | For a fresh id, appending the task and its row keeps the collection and the rows in step and keeps the ids unique. |
| Rows.AppendIncompletePartitioned | script.js:86 | Appending an incomplete row keeps the list partitioned if and only if it was partitioned and held no completed row. |
| Tasks.LoadTasks | script.js:38-55 | A stored array is taken as it is. A missing document, an unparsable one, or one that is not an array gives the empty collection. |
| TodoApp.StoredAt | script.js:40 | A storage without the key yields no document. |
| TodoApp.App.Load | script.js:9-11 | On an existing instance: the tasks become what the stored document loads to, the rows are their full render (partitioned and in step), and the markers agree. |
| TodoApp.App.constructor | script.js:9-11 | Page load: the tasks are what the stored document loads to. The rows are the full render of them, which is partitioned and in step. The markers agree with the collection. |
| TodoApp.App.PersistTasks | script.js:57-59 | Only the key is overwritten, with the whole collection. Loading it back gives the collection unchanged (round trip). |
| TodoApp.App.RenderTasks | script.js:61-66 | The loop leaves one row per task, in display order. The result is partitioned and in step with the collection. |
| Display.CompareFacts | script.js:64 | The comparator ties exactly when both keys agree. It is antisymmetric and transitive. |
| Display.Compare | script.js:64 | An incomplete task sorts before a completed one. Within a group, the earlier `createdAt` sorts first, and equal times tie. |
| Display.Insert | script.js:63-64 | Insertion adds exactly the one element. |
| Display.InsertSorted | script.js:63-64 | Inserting into a sorted sequence keeps it sorted. |
| Display.TiesInsert | script.js:63-64 | Insertion puts the new element ahead of every element it ties with. |
| Display.DisplayOrder | script.js:63-64 | The sorted copy is a permutation of the collection. |
| Display.DisplayOrderSorted | script.js:63-64 | The sorted copy is sorted by the comparator. Every incomplete task precedes every completed one, and within a group `createdAt` never decreases. |
| Display.DisplayOrderStable | script.js:63-64 | The sort is stable: the tasks tied with any task keep their collection order. |
| TodoApp.App.AddTaskToDOM | script.js:68-87 | The task's row, flagged when the task is completed, is appended after every existing row. |
| Rows.RowsOf | script.js:75-81 | One row per task, with the task's id and completion flag, index by index. |
| Seqs.FirstIndex | script.js:90 | Gives the first index whose element satisfies the predicate. Gives none exactly when no element does. |
| Tasks.Find | script.js:90 | Gives the first task with the id. Gives none exactly when the id is not in the collection. |
| Tasks.SetCompleted | script.js:89-95 | An unknown id changes nothing. Otherwise only the found task may differ, and only in `completed`, which becomes the requested value. Length, ids, titles and creation times are kept. |
| Tasks.SetCompletedToCurrent | script.js:89-95 | With unique ids, setting a task's flag to its current value leaves the collection unchanged. |
| TodoApp.App.ToggleCompleted | script.js:89-98 | An unknown id changes nothing. Otherwise the collection is the `SetCompleted` update, stored, and the rows are the `UpdatedRows` update. The id set is kept. Partition, sync and unique ids are preserved. |
| TodoApp.App.ToggleFound | script.js:95-97 | Once `find` has located the task: the collection becomes the `SetCompleted` update and is stored, and the rows become the `UpdatedRows` update. Partition, sync and unique ids are preserved. |
| TodoApp.App.StoreCompleted | script.js:95-96 | Only the flag of the task at the index changes, and the stored document reloads to the new collection. The markers stay valid. |
| TodoApp.ToggleStepAndOrder | script.js:95-97 | The in-place flag write is the `SetCompleted` update. The row update keeps partition and sync. |
| Rows.FindRow | script.js:101 | Gives the first row with the id. Gives none exactly when no row carries it. |
| Rows.FirstCompleted | script.js:111-112 | Gives the first row marked completed. Gives none exactly when no row is marked completed. |
| Rows.MoveBefore | script.js:108-113 | Moving an existing row keeps the multiset of rows. With no reference row, the moved row becomes last. Otherwise it lands right before the reference row. Either way the other rows keep their order. |
| Rows.MovedRow | script.js:108-113 | Detaching a row and inserting it at its landing index keeps the multiset of rows. The row lands last or right before the reference row, and the other rows keep their order. |
| Rows.MoveBeforeFirstCompleted | script.js:111-113 | An incomplete row moved before the first completed row, or to the end when there is none, ends up after incomplete rows only and right before a completed row if one follows. |
| Rows.InsertAt | script.js:113 | The element is placed at the position. Elements before it are kept, elements after it shift by one, and removing it gives the original. |
| Rows.UpdatedRows | script.js:100-115 | A missing row leaves the list as it is. Otherwise exactly one row, the found one, is replaced by the row with the new flag. The length is kept. |
| Rows.FlaggedAndMoved | script.js:105-113 | Re-flagging a row and moving it trades that one row for its re-flagged copy. The length is kept. |
| TodoApp.App.UpdateTaskInDOM | script.js:100-115 | The method's lookup, flag and move steps yield exactly `UpdatedRows`. |
| Rows.CompletingMovesToEnd | script.js:106-109 | Completing flags the row and moves it last. The others keep their relative order. |
| Rows.UncompletingPlacement | script.js:106-113 | Un-completing clears the flag. The row lands after only incomplete rows, and right before a completed row if one follows. The others keep their relative order. |
| Rows.UpdatedRowsPartitioned | script.js:100-115 | Completing or un-completing keeps a partitioned list partitioned. |
| Rows.RemoveAtPartitioned | script.js:121 | Detaching a row keeps a partitioned list partitioned. |
| Seqs.Filter | script.js:118 | Every kept element passes, and the result is no longer than the input. |
| Seqs.FilterAll | script.js:118 | If every element passes, the result is the input. |
| Seqs.FilterCount | script.js:118 | Each passing element is kept exactly as many times as it occurs, and every failing element is dropped. |
| Seqs.FilterConcat | script.js:118 | Filtering a concatenation is the concatenation of the filtered parts, so the kept elements stay in their order. |
| Seqs.FilterSingleton | script.js:118 | A single element is kept exactly when it passes. |
| Seqs.FilterOneOut | script.js:118 | If only one element fails the predicate, filtering removes exactly that element and keeps the order of the rest. |
| Tasks.Without | script.js:118 | Every task with the id goes and every other task stays. The id set loses the id. An unknown id changes nothing. |
| Tasks.WithoutCount | script.js:118 | A task without the id is kept as many times as it occurs, and a task with the id is gone. |
| Tasks.WithoutConcat | script.js:118 | Removing from a concatenation removes from each part, and a single task is dropped exactly when it carries the id. Together these fix the result, order included, whatever the ids. |
| Tasks.WithoutUnique | script.js:118 | With unique ids, removal takes out exactly the task `find` locates, and the ids stay unique. |
| Rows.DetachRow | script.js:120-121 | A missing row leaves the list as it is. Otherwise exactly the first row with the id goes, and the rest keep their order. A partitioned list stays partitioned. |
| TodoApp.App.RemoveTask | script.js:117-123 | The collection becomes `Without`, stored, and the rows become `DetachRow`. The markers are updated and the id set loses the id. Partition, sync and unique ids are preserved. |
| TodoApp.App.DropTasks | script.js:118-119 | The collection becomes `Without` of the old one, and the stored document reloads to it. |
| TodoApp.App.RemoveRow | script.js:120-121 | The lookup and the detach leave exactly `DetachRow` of the old rows. |
| TodoApp.RemoveStepAndOrder | script.js:118-121 | The filter and the detach keep a partitioned list partitioned. They also keep the collection and the rows in step, and the ids unique. |
| Sync.RemoveKeepsStep | script.js:118-121 | Filtering the id out and detaching its row keeps the collection and the rows in step, and keeps the ids unique. |
| Sync.MatchingRow | script.js:89-104 | With sync and unique ids, the row the lookup finds is the row of the task `find` returns. |
| Sync.NoMatchingRow | script.js:101-104 | An id no task carries has no row. |
| Sync.ToggleKeepsStep | script.js:95-97 | Toggling a known task and updating its row keeps the two in step. |
| Sync.RowsOfPermutation | script.js:63-65 | Reordering tasks reorders their rows the same way. |
| TodoApp.App.UpdateEmptyState | script.js:125-129 | The placeholder is hidden, and the marker class is set, exactly when the collection is non-empty. When the stored document reloads to the collection, the whole invariant holds afterwards. |
| Scenarios.FreshStart | script.js:9-11 | With no stored document, the collection is empty and the placeholder shows. |
| Scenarios.CorruptStore | script.js:45-53 | With a document that does not parse, the collection and the rows are empty. |
| Scenarios.SubmitThenBlank | script.js:13-36 | A title, then a blank one: exactly one incomplete task with the trimmed title, and it is stored. |
| Scenarios.CompleteFirstRow | script.js:106-109 | Rows [A, B]: completing A gives [B, A✓]. |
| Scenarios.UncompleteAfterLoad | script.js:100-115 | Stored [A✓, B] with A no newer than B renders [B, A✓]. Un-completing A gives rows [B, A]. A full render of the new collection would give [A, B]. |
| Scenarios.ShownTwo | script.js:61-66 | Two tasks render in comparator order: the one that sorts first, or the first one on a tie, comes first. |
| Scenarios.SubmitAfterCompletion | script.js:29-36 | Rows [A, B]: completing A and then submitting C gives [B, A✓, C], which is not partitioned. |
| Scenarios.RemoveStale | script.js:117-123 | Deleting an id no task has leaves the collection and the rows unchanged. |

## Left out

- DOM plumbing is not modelled. That covers template cloning, the title text, the checkbox state, event listener wiring, `input.focus()` and `form.reset()`. A row is only its id and its `completed` class.
- JSON serialisation is not modelled. The stored document is a datatype with four cases: absent (including the empty string), unparsable, not an array, or an array of tasks. `persistTasks` stores the array case.
- The elements of a loaded array are taken to be well-formed tasks. `loadTasks` does not check them, and the model does not track malformed records.
- Unique ids are not guaranteed for a loaded array either. Sync and unique-id preservation are therefore stated as implications.
- The warning `loadTasks` logs on a parse failure is not modelled.
- `crypto.randomUUID()` and `Date.now()` are parameters of `Submit`. The id's freshness is a precondition that stands in for UUID uniqueness.
- Text.Trim works on code points, while JavaScript strings are UTF-16 code units. Every trimmed character is in the Basic Multilingual Plane, so this only matters for unpaired surrogates, which are not modelled.
- Display.DisplayOrder: `Array.prototype.sort` is modelled by one particular stable sort, an insertion sort. ECMAScript requires stability, and with a consistent comparator every stable sort gives the same order. `createdAt` is an unbounded integer rather than a double.
- Several tabs sharing one storage are not modelled.
- Rows.FindRow matches ids by plain equality. The script pastes the id into a CSS attribute selector, so an id containing `"` or a line break would make `querySelector` throw, and a backslash would be read as a CSS escape. The model assumes selector-safe ids, such as the UUIDs the script itself makes; a loaded array could carry others.
- TodoApp.App.PersistTasks always succeeds. `localStorage.setItem` can throw, for example when the quota is exceeded or storage is disabled. The handler would then stop after changing `tasks` and before updating the rows, leaving the two out of step. The model assumes every storage write succeeds.

Where the code differs from a reading of its documented intent, the model follows the code:

- A new task's row is appended after any completed rows. The list then stops being "incomplete first" (`Rows.AppendIncompletePartitioned`, `Scenarios.SubmitAfterCompletion`).
- Loading [A completed, B incomplete] and un-completing A leaves the rows as [B, A], not [A, B] (`Scenarios.UncompleteAfterLoad`).
