/** The page's state and its handlers: the module-level `tasks` array, the
    rows of `#tasks`, the browser's local storage and the empty-state
    markers, updated in place by the submit, toggle and delete handlers. */
module TodoApp {
  import opened Seqs
  import opened Text
  import opened Tasks
  import opened Display
  import opened Rows
  import opened Sync

  /** The key the collection is stored under. */
  const StorageKey: string := "todo-app/tasks"

  /** What `localStorage.getItem(StorageKey)` yields. */
  function StoredAt(storage: map<string, StoredDocument>): (doc: StoredDocument)
    ensures StorageKey !in storage ==> doc == Absent
  {
    if StorageKey in storage then storage[StorageKey] else Absent
  }

  class App {
    /** The in-memory task collection. */
    var tasks: seq<Task>
    /** The rows under `#tasks`, in document order. */
    var rows: seq<Row>
    /** The origin's local storage, by key. */
    var storage: map<string, StoredDocument>
    /** `emptyState.hidden`. */
    var emptyStateHidden: bool
    /** Whether the list's parent carries the `has-tasks` class. */
    var hasTasksClass: bool

    /** What holds between handlers: reloading the stored document gives
        the collection back, and the placeholder and the marker class both
        tell whether the collection is non-empty. */
    ghost predicate Valid()
      reads this`storage, this`tasks, this`emptyStateHidden, this`hasTasksClass
    {
      && Stored()
      && emptyStateHidden == (|tasks| > 0)
      && hasTasksClass == (|tasks| > 0)
    }

    /** Reloading the stored document gives the collection back. */
    ghost predicate Stored()
      reads this`storage, this`tasks
    {
      LoadTasks(StoredAt(storage)) == tasks
    }

    /** Page load: `tasks = loadTasks(); renderTasks(); updateEmptyState();`. */
    constructor (storage: map<string, StoredDocument>)
      ensures Valid()
      ensures this.storage == storage && tasks == LoadTasks(StoredAt(storage))
      ensures rows == RowsOf(DisplayOrder(tasks))
      ensures Partitioned(rows) && InStep(tasks, rows)
    {
      this.storage := storage;
      tasks := [];
      rows := [];
      emptyStateHidden := false;
      hasTasksClass := false;
      new;
      Load();
    }

    /** The three statements of page load, on an existing instance. */
    method Load()
      modifies this`tasks, this`rows, this`emptyStateHidden, this`hasTasksClass
      ensures Valid()
      ensures tasks == LoadTasks(StoredAt(storage))
      ensures rows == RowsOf(DisplayOrder(tasks))
      ensures Partitioned(rows) && InStep(tasks, rows)
    {
      tasks := LoadTasks(StoredAt(storage));
      RenderTasks();
      UpdateEmptyState();
    }

    /** `persistTasks`: the whole collection overwrites the stored document. */
    method PersistTasks()
      modifies this`storage
      ensures storage == old(storage)[StorageKey := TaskArray(tasks)]
      ensures Stored()
    {
      storage := storage[StorageKey := TaskArray(tasks)];
    }

    /** `renderTasks`: clear the list, then add one row per task in display
        order. The result is partitioned and shows every task once. */
    method RenderTasks()
      modifies this`rows
      ensures rows == RowsOf(DisplayOrder(tasks))
      ensures Partitioned(rows) && InStep(tasks, rows)
    {
      rows := [];
      var sorted := DisplayOrder(tasks);
      for i := 0 to |sorted|
        invariant rows == RowsOf(sorted[..i])
      {
        AddTaskToDOM(sorted[i]);
        assert sorted[..i + 1] == sorted[..i] + [sorted[i]];
      }
      assert sorted[..|sorted|] == sorted;
      DisplayOrderSorted(tasks);
      RowsOfPermutation(sorted, tasks);
    }

    /** `addTaskToDOM`, as far as row order goes: the task's row, flagged
        when the task is completed, goes at the very end of the list. */
    method AddTaskToDOM(task: Task)
      modifies this`rows
      ensures rows == old(rows) + [Row(task.id, task.completed)]
    {
      rows := rows + [RowOf(task)];
    }

    /** The submit handler. A title that is blank after trimming changes
        nothing. Otherwise one incomplete task with the trimmed title is
        appended, stored, given a row at the end of the list, and the
        empty-state markers are updated. The fresh row keeps the list
        partitioned exactly when no completed row was present. */
    method Submit(input: string, id: Id, now: int)
      requires Valid()
      requires id !in IdSet(tasks)
      modifies this
      ensures Valid()
      ensures IsBlank(input) ==> unchanged(this)
      ensures !IsBlank(input) ==>
        && tasks == old(tasks) + [Task(id, Trim(input), false, now)]
        && rows == old(rows) + [Row(id, false)]
        && storage == old(storage)[StorageKey := TaskArray(tasks)]
        && IdSet(tasks) == old(IdSet(tasks)) + {id}
        && (Partitioned(rows) <==> old(Partitioned(rows) && NoneCompleted(rows)))
      ensures old(InStep(tasks, rows)) ==> InStep(tasks, rows)
      ensures old(UniqueIds(tasks)) ==> UniqueIds(tasks)
    {
      var title := Trim(input);
      if title == [] {
        return;
      }
      AddTask(Task(id, title, false, now));
    }

    /** The submit handler once the title is known not to be blank: push
        the task, store the collection, add its row at the end and update
        the empty-state markers. */
    method AddTask(task: Task)
      requires Valid()
      requires task.id !in IdSet(tasks) && !task.completed
      modifies this
      ensures Valid()
      ensures tasks == old(tasks) + [task]
      ensures rows == old(rows) + [Row(task.id, false)]
      ensures storage == old(storage)[StorageKey := TaskArray(tasks)]
      ensures IdSet(tasks) == old(IdSet(tasks)) + {task.id}
      ensures Partitioned(rows) <==> old(Partitioned(rows) && NoneCompleted(rows))
      ensures old(InStep(tasks, rows)) ==> InStep(tasks, rows)
      ensures old(UniqueIds(tasks)) ==> UniqueIds(tasks)
    {
      SubmitKeepsStep(tasks, rows, task);
      AppendIncompletePartitioned(rows, task.id);
      IdSetAppend(tasks, task);
      AppendTask(task);
      AddTaskToDOM(task);
      UpdateEmptyState();
    }

    /** The task half of the submit handler: append the task and store the
        collection. */
    method AppendTask(task: Task)
      modifies this`tasks, this`storage
      ensures tasks == old(tasks) + [task]
      ensures storage == old(storage)[StorageKey := TaskArray(tasks)]
      ensures Stored()
    {
      tasks := tasks + [task];
      PersistTasks();
    }

    /** `toggleCompleted`. An unknown id changes nothing. Otherwise only the
        `completed` field of the task `find` returns changes; the collection
        is stored and the task's row is updated in place. */
    method ToggleCompleted(id: Id, isCompleted: bool)
      requires Valid()
      modifies this
      ensures Valid()
      ensures id !in old(IdSet(tasks)) ==> unchanged(this)
      ensures id in old(IdSet(tasks)) ==>
        && tasks == SetCompleted(old(tasks), id, isCompleted)
        && rows == UpdatedRows(old(rows), id, isCompleted)
        && storage == old(storage)[StorageKey := TaskArray(tasks)]
      ensures IdSet(tasks) == old(IdSet(tasks))
      ensures old(Partitioned(rows)) ==> Partitioned(rows)
      ensures old(UniqueIds(tasks) && InStep(tasks, rows)) ==> UniqueIds(tasks) && InStep(tasks, rows)
    {
      var found := Find(tasks, id);
      if found.None? {
        return;
      }
      ToggleFound(found.value, id, isCompleted);
    }

    /** `toggleCompleted` once `find` has returned the task at index `i`. */
    method ToggleFound(i: nat, id: Id, isCompleted: bool)
      requires Valid() && Find(tasks, id) == Some(i)
      modifies this
      ensures Valid()
      ensures tasks == SetCompleted(old(tasks), id, isCompleted)
      ensures rows == UpdatedRows(old(rows), id, isCompleted)
      ensures storage == old(storage)[StorageKey := TaskArray(tasks)]
      ensures old(Partitioned(rows)) ==> Partitioned(rows)
      ensures old(UniqueIds(tasks) && InStep(tasks, rows)) ==> UniqueIds(tasks) && InStep(tasks, rows)
    {
      ToggleStepAndOrder(tasks, rows, id, isCompleted);
      StoreCompleted(i, isCompleted);
      UpdateTaskInDOM(id, isCompleted);
    }

    /** The task half of `toggleCompleted`: set the flag of the task at
        index `i` and store the collection. */
    method StoreCompleted(i: nat, isCompleted: bool)
      requires i < |tasks| && Valid()
      modifies this`tasks, this`storage
      ensures Valid()
      ensures tasks == old(tasks)[i := old(tasks)[i].(completed := isCompleted)]
      ensures storage == old(storage)[StorageKey := TaskArray(tasks)]
      ensures Stored()
    {
      tasks := tasks[i := tasks[i].(completed := isCompleted)];
      PersistTasks();
    }

    /** `updateTaskInDOM`: look the row up; when present, set or clear its
        `completed` class and move it, with `appendChild` when completing
        and with `insertBefore` the first completed row (or at the end)
        when un-completing. */
    method UpdateTaskInDOM(id: Id, isCompleted: bool)
      modifies this`rows
      ensures rows == UpdatedRows(old(rows), id, isCompleted)
    {
      var found := FindRow(rows, id);
      if found.None? {
        return;
      }
      var k := found.value;
      rows := rows[k := Row(rows[k].id, isCompleted)];
      if isCompleted {
        rows := MoveBefore(rows, k, None);
      } else {
        var first := FirstCompleted(rows);
        rows := MoveBefore(rows, k, first);
      }
    }

    /** `removeTask`: every task with the id is filtered out and the result
        stored; the first row with the id is detached if there is one; the
        empty-state markers are updated. */
    method RemoveTask(id: Id)
      requires Valid()
      modifies this
      ensures Valid()
      ensures tasks == Without(old(tasks), id)
      ensures rows == DetachRow(old(rows), id)
      ensures storage == old(storage)[StorageKey := TaskArray(tasks)]
      ensures IdSet(tasks) == old(IdSet(tasks)) - {id}
      ensures old(Partitioned(rows)) ==> Partitioned(rows)
      ensures old(UniqueIds(tasks) && InStep(tasks, rows)) ==> UniqueIds(tasks) && InStep(tasks, rows)
    {
      RemoveStepAndOrder(tasks, rows, id);
      DropTasks(id);
      RemoveRow(id);
      UpdateEmptyState();
    }

    /** The task half of `removeTask`: filter the tasks and store them. */
    method DropTasks(id: Id)
      modifies this`tasks, this`storage
      ensures tasks == Without(old(tasks), id)
      ensures storage == old(storage)[StorageKey := TaskArray(tasks)]
      ensures Stored()
    {
      tasks := Without(tasks, id);
      PersistTasks();
    }

    /** The row half of `removeTask`: look the row up and, when there is
        one, detach it. */
    method RemoveRow(id: Id)
      modifies this`rows
      ensures rows == DetachRow(old(rows), id)
    {
      var found := FindRow(rows, id);
      if found.Some? {
        rows := RemoveAt(rows, found.value);
      }
    }

    /** `updateEmptyState`: the placeholder is hidden, and the marker class
        set, exactly when the collection is non-empty; with the collection
        stored, that restores `Valid`. */
    method UpdateEmptyState()
      modifies this`emptyStateHidden, this`hasTasksClass
      ensures emptyStateHidden == (|tasks| > 0)
      ensures hasTasksClass == (|tasks| > 0)
      ensures Stored() ==> Valid()
    {
      var hasTasks := |tasks| > 0;
      emptyStateHidden := hasTasks;
      hasTasksClass := hasTasks;
    }
  }

  /** The facts the toggle handler keeps, stated on the values. */
  lemma ToggleStepAndOrder(tasks: seq<Task>, rows: seq<Row>, id: Id, isCompleted: bool)
    requires id in IdSet(tasks)
    ensures SetCompleted(tasks, id, isCompleted) ==
      tasks[Find(tasks, id).value := tasks[Find(tasks, id).value].(completed := isCompleted)]
    ensures Partitioned(rows) ==> Partitioned(UpdatedRows(rows, id, isCompleted))
    ensures UniqueIds(tasks) && InStep(tasks, rows) ==>
      UniqueIds(SetCompleted(tasks, id, isCompleted)) &&
      InStep(SetCompleted(tasks, id, isCompleted), UpdatedRows(rows, id, isCompleted))
  {
    if Partitioned(rows) {
      UpdatedRowsPartitioned(rows, id, isCompleted);
    }
    if UniqueIds(tasks) && InStep(tasks, rows) {
      ToggleKeepsStep(tasks, rows, id, isCompleted);
    }
  }

  /** The facts the delete handler keeps, stated on the values. */
  lemma RemoveStepAndOrder(tasks: seq<Task>, rows: seq<Row>, id: Id)
    ensures Partitioned(rows) ==> Partitioned(DetachRow(rows, id))
    ensures UniqueIds(tasks) && InStep(tasks, rows) ==>
      UniqueIds(Without(tasks, id)) && InStep(Without(tasks, id), DetachRow(rows, id))
  {
    if UniqueIds(tasks) && InStep(tasks, rows) {
      RemoveKeepsStep(tasks, rows, id);
    }
  }
}
