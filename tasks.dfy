/** The task records, the in-memory task collection's pure updates, and
    what `loadTasks` makes of the stored document. */
module Tasks {
  import opened Seqs

  /** The value `crypto.randomUUID()` returns: a string. */
  type Id = string

  /** One to-do item; `createdAt` is the `Date.now()` reading (epoch ms). */
  datatype Task = Task(id: Id, title: string, completed: bool, createdAt: int)

  /** The id set of a collection. */
  function IdSet(tasks: seq<Task>): set<Id>
  {
    set i | 0 <= i < |tasks| :: tasks[i].id
  }

  predicate UniqueIds(tasks: seq<Task>)
  {
    forall i, j :: 0 <= i < j < |tasks| ==> tasks[i].id != tasks[j].id
  }

  /** Appending a task adds its id to the id set. */
  lemma IdSetAppend(tasks: seq<Task>, t: Task)
    ensures IdSet(tasks + [t]) == IdSet(tasks) + {t.id}
  {
    assert forall i :: 0 <= i < |tasks| ==> (tasks + [t])[i] == tasks[i];
    assert (tasks + [t])[|tasks|] == t;
  }

  /** `tasks.find((entry) => entry.id === id)`, as an index. */
  function Find(tasks: seq<Task>, id: Id): (r: Option<nat>)
    ensures r.Some? ==> r.value < |tasks| && tasks[r.value].id == id
    ensures r.Some? ==> forall j :: 0 <= j < r.value ==> tasks[j].id != id
    ensures r.None? <==> id !in IdSet(tasks)
  {
    var r := FirstIndex(tasks, (t: Task) => t.id == id);
    assert r.None? ==> forall j :: 0 <= j < |tasks| ==> tasks[j].id != id;
    r
  }

  /** The collection after `task.completed = isCompleted` on the task
      `find` returns; an unknown id changes nothing. Only the `completed`
      field of the first task with that id may differ. */
  function SetCompleted(tasks: seq<Task>, id: Id, isCompleted: bool): (r: seq<Task>)
    ensures |r| == |tasks| && IdSet(r) == IdSet(tasks)
    ensures forall i :: 0 <= i < |tasks| ==>
      r[i].id == tasks[i].id && r[i].title == tasks[i].title && r[i].createdAt == tasks[i].createdAt
    ensures forall i :: 0 <= i < |tasks| && r[i] != tasks[i] ==>
      Find(tasks, id) == Some(i) && r[i].completed == isCompleted
    ensures id in IdSet(tasks) ==> r[Find(tasks, id).value].completed == isCompleted
    ensures id !in IdSet(tasks) ==> r == tasks
  {
    match Find(tasks, id)
    case None => tasks
    case Some(i) =>
      var r := tasks[i := tasks[i].(completed := isCompleted)];
      assert forall j :: 0 <= j < |r| ==> r[j].id == tasks[j].id;
      assert IdSet(r) == IdSet(tasks);
      r
  }

  /** Setting a task's flag to the value it already has leaves the
      collection as it was. */
  lemma SetCompletedToCurrent(tasks: seq<Task>, i: nat)
    requires i < |tasks| && UniqueIds(tasks)
    ensures SetCompleted(tasks, tasks[i].id, tasks[i].completed) == tasks
  {
    var id := tasks[i].id;
    assert id in IdSet(tasks);
    assert Find(tasks, id) == Some(i);
  }

  /** `tasks.filter((entry) => entry.id !== id)`: every task carrying the
      id goes, the rest stay. Multiplicity and order are stated by
      `WithoutCount` and `WithoutConcat`. */
  function Without(tasks: seq<Task>, id: Id): (r: seq<Task>)
    ensures IdSet(r) == IdSet(tasks) - {id}
    ensures forall t :: t in r <==> t in tasks && t.id != id
    ensures id !in IdSet(tasks) ==> r == tasks
  {
    var r := Filter(tasks, (t: Task) => t.id != id);
    WithoutMembers(tasks, id);
    WithoutIds(tasks, id);
    assert id !in IdSet(tasks) ==> r == tasks by {
      if id !in IdSet(tasks) {
        assert forall j :: 0 <= j < |tasks| ==> tasks[j].id in IdSet(tasks);
        FilterAll(tasks, (t: Task) => t.id != id);
      }
    }
    r
  }

  /** Each task without the id is kept as often as it occurs; each task
      with it is gone. */
  lemma WithoutCount(tasks: seq<Task>, id: Id, t: Task)
    ensures multiset(Without(tasks, id))[t] == if t.id == id then 0 else multiset(tasks)[t]
  {
    FilterCount(tasks, (t: Task) => t.id != id, t);
  }

  lemma WithoutMembers(tasks: seq<Task>, id: Id)
    ensures var r := Filter(tasks, (t: Task) => t.id != id);
      forall t :: t in r <==> t in tasks && t.id != id
  {
    var r := Filter(tasks, (t: Task) => t.id != id);
    forall t ensures t in r <==> t in tasks && t.id != id {
      FilterCount(tasks, (t: Task) => t.id != id, t);
      assert t in r <==> t in multiset(r);
      assert t in tasks <==> t in multiset(tasks);
    }
  }

  lemma WithoutIds(tasks: seq<Task>, id: Id)
    ensures IdSet(Filter(tasks, (t: Task) => t.id != id)) == IdSet(tasks) - {id}
  {
    var r := Filter(tasks, (t: Task) => t.id != id);
    WithoutMembers(tasks, id);
    forall x | x in IdSet(r) ensures x in IdSet(tasks) - {id} {
      var j :| 0 <= j < |r| && r[j].id == x;
      assert r[j] in r;
    }
    forall j | 0 <= j < |tasks| && tasks[j].id != id ensures tasks[j].id in IdSet(r) {
      assert tasks[j] in tasks;
    }
  }

  /** Removal works piece by piece: removing from a concatenation removes
      from each part, and a single task is dropped exactly when it carries
      the id. Together these fix the result, order included. */
  lemma WithoutConcat(a: seq<Task>, b: seq<Task>, id: Id)
    ensures Without(a + b, id) == Without(a, id) + Without(b, id)
    ensures forall t :: Without([t], id) == if t.id == id then [] else [t]
  {
    FilterConcat(a, b, (t: Task) => t.id != id);
    forall t {
      FilterSingleton(t, (t: Task) => t.id != id);
    }
  }

  /** With unique ids, removal takes out exactly the one task that
      `find` locates, keeping the order of all others. */
  lemma WithoutUnique(tasks: seq<Task>, id: Id, k: nat)
    requires UniqueIds(tasks) && Find(tasks, id) == Some(k)
    ensures Without(tasks, id) == RemoveAt(tasks, k)
    ensures UniqueIds(Without(tasks, id))
  {
    FilterOneOut(tasks, (t: Task) => t.id != id, k);
  }

  /** What `localStorage.getItem` returned, as `loadTasks` tells it apart:
      nothing (null or the empty string), text that `JSON.parse` rejects,
      a parsed value that is not an array, or a parsed array of tasks. */
  datatype StoredDocument = Absent | Unparsable | NotAnArray | TaskArray(items: seq<Task>)

  /** `loadTasks`: a stored array is taken as it is; every other document
      degrades to the empty collection. */
  function LoadTasks(doc: StoredDocument): (r: seq<Task>)
    ensures doc.TaskArray? ==> r == doc.items
    ensures !doc.TaskArray? ==> r == []
  {
    match doc
    case TaskArray(items) => items
    case _ => []
  }
}
