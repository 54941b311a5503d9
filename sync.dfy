/** How the task collection and the rendered rows stay in step: the rows are
    a reordering of one row per task, and each handler's update of the
    collection is matched by its update of the rows. */
module Sync {
  import opened Seqs
  import opened Tasks
  import opened Rows

  /** The rows show exactly the tasks, in some order. */
  predicate InStep(tasks: seq<Task>, rows: seq<Row>)
  {
    multiset(rows) == multiset(RowsOf(tasks))
  }

  lemma RowsOfConcat(a: seq<Task>, b: seq<Task>)
    ensures RowsOf(a + b) == RowsOf(a) + RowsOf(b)
  {
  }

  /** Taking one task out takes its row out. */
  lemma RowsOfRemoveAt(s: seq<Task>, i: nat)
    requires i < |s|
    ensures multiset(RowsOf(s)) == multiset(RowsOf(RemoveAt(s, i))) + multiset{RowOf(s[i])}
  {
    assert RowsOf(RemoveAt(s, i)) == RemoveAt(RowsOf(s), i);
  }

  /** Reordering the tasks reorders their rows the same way. */
  lemma {:induction false} RowsOfPermutation(a: seq<Task>, b: seq<Task>)
    requires multiset(a) == multiset(b)
    ensures multiset(RowsOf(a)) == multiset(RowsOf(b))
  {
    if a == [] {
      assert |b| == |multiset(b)| == 0;
    } else {
      var x := a[0];
      assert x in multiset(b);
      var i :| 0 <= i < |b| && b[i] == x;
      var rest := RemoveAt(b, i);
      assert multiset(RemoveAt(a, 0)) == multiset(rest) by {
        assert multiset(RemoveAt(a, 0)) == multiset(a) - multiset{x};
        assert multiset(rest) == multiset(b) - multiset{x};
      }
      RowsOfPermutation(RemoveAt(a, 0), rest);
      RowsOfRemoveAt(a, 0);
      RowsOfRemoveAt(b, i);
    }
  }

  /** With the collection and the rows in step and ids unique, the row the
      lookup finds is the row of the task `find` returns. */
  lemma MatchingRow(tasks: seq<Task>, rows: seq<Row>, id: Id) returns (i: nat, k: nat)
    requires UniqueIds(tasks) && InStep(tasks, rows) && id in IdSet(tasks)
    ensures Find(tasks, id) == Some(i) && FindRow(rows, id) == Some(k)
    ensures rows[k] == RowOf(tasks[i])
  {
    i := Find(tasks, id).value;
    assert RowsOf(tasks)[i] in multiset(rows);
    assert FindRow(rows, id).Some?;
    k := FindRow(rows, id).value;
    assert rows[k] in multiset(RowsOf(tasks));
    var j :| 0 <= j < |tasks| && RowsOf(tasks)[j] == rows[k];
    assert j == i;
  }

  /** An id no task carries has no row either. */
  lemma NoMatchingRow(tasks: seq<Task>, rows: seq<Row>, id: Id)
    requires InStep(tasks, rows) && id !in IdSet(tasks)
    ensures FindRow(rows, id).None?
  {
    forall j | 0 <= j < |rows| ensures rows[j].id != id {
      assert rows[j] in multiset(RowsOf(tasks));
      var m :| 0 <= m < |tasks| && RowsOf(tasks)[m] == rows[j];
      assert tasks[m].id in IdSet(tasks);
    }
  }

  /** Submitting a task under a fresh id and appending its row keeps the
      collection and the rows in step, and the ids unique. */
  lemma SubmitKeepsStep(tasks: seq<Task>, rows: seq<Row>, t: Task)
    requires t.id !in IdSet(tasks)
    ensures InStep(tasks, rows) ==> InStep(tasks + [t], rows + [RowOf(t)])
    ensures UniqueIds(tasks) ==> UniqueIds(tasks + [t])
  {
    RowsOfConcat(tasks, [t]);
    assert forall i :: 0 <= i < |tasks| ==> tasks[i].id in IdSet(tasks);
  }

  /** Toggling a known task in the collection and updating its row keeps
      the two in step. */
  lemma ToggleKeepsStep(tasks: seq<Task>, rows: seq<Row>, id: Id, isCompleted: bool)
    requires UniqueIds(tasks) && InStep(tasks, rows) && id in IdSet(tasks)
    ensures FindRow(rows, id).Some?
    ensures UniqueIds(SetCompleted(tasks, id, isCompleted))
    ensures InStep(SetCompleted(tasks, id, isCompleted), UpdatedRows(rows, id, isCompleted))
  {
    var i, k := MatchingRow(tasks, rows, id);
    var toggled := SetCompleted(tasks, id, isCompleted);
    assert toggled == tasks[i := tasks[i].(completed := isCompleted)];
    assert RowsOf(toggled) == RowsOf(tasks)[i := Row(id, isCompleted)];
  }

  /** Removing an id from the collection and detaching its row keeps the
      two in step; an unknown id changes neither. */
  lemma RemoveKeepsStep(tasks: seq<Task>, rows: seq<Row>, id: Id)
    requires UniqueIds(tasks) && InStep(tasks, rows)
    ensures UniqueIds(Without(tasks, id))
    ensures InStep(Without(tasks, id), DetachRow(rows, id))
  {
    if id !in IdSet(tasks) {
      NoMatchingRow(tasks, rows, id);
    } else {
      var i, k := MatchingRow(tasks, rows, id);
      WithoutUnique(tasks, id, i);
      RemoveMatching(tasks, rows, i, k);
    }
  }

  lemma RemoveMatching(tasks: seq<Task>, rows: seq<Row>, i: nat, k: nat)
    requires i < |tasks| && k < |rows| && rows[k] == RowOf(tasks[i])
    requires InStep(tasks, rows)
    ensures InStep(RemoveAt(tasks, i), RemoveAt(rows, k))
  {
    var kept := RemoveAt(tasks, i);
    assert RowsOf(kept) == RemoveAt(RowsOf(tasks), i);
    assert multiset(RowsOf(kept)) == multiset(RowsOf(tasks)) - multiset{rows[k]};
    assert multiset(RemoveAt(rows, k)) == multiset(rows) - multiset{rows[k]};
  }
}
