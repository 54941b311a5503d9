/** Concrete runs of the page model: each method drives an `App` through a
    short sequence of handler calls and returns what the page then shows. */
module Scenarios {
  import opened Seqs
  import opened Text
  import opened Tasks
  import opened Display
  import opened Rows
  import opened TodoApp

  /** Nothing stored: the collection is empty and the placeholder shows. */
  method FreshStart() returns (tasks: seq<Task>, placeholderShown: bool)
    ensures tasks == [] && placeholderShown
  {
    var app := new App(map[]);
    tasks, placeholderShown := app.tasks, !app.emptyStateHidden;
  }

  /** A stored document that does not parse loads as no tasks. */
  method CorruptStore() returns (tasks: seq<Task>, rows: seq<Row>)
    ensures tasks == [] && rows == []
  {
    var app := new App(map[StorageKey := Unparsable]);
    tasks, rows := app.tasks, app.rows;
  }

  /** Submitting a title, then a blank one: one incomplete task with the
      trimmed title is created and stored; the blank submit changes
      nothing. */
  method SubmitThenBlank(input: string, blank: string, id: Id, id': Id, now: int, now': int)
    returns (tasks: seq<Task>, stored: StoredDocument)
    requires !IsBlank(input) && IsBlank(blank) && id' != id
    ensures tasks == [Task(id, Trim(input), false, now)]
    ensures stored == TaskArray(tasks)
  {
    var app := new App(map[]);
    app.Submit(input, id, now);
    assert id' !in IdSet(app.tasks) by {
      assert app.tasks == [Task(id, Trim(input), false, now)];
    }
    app.Submit(blank, id', now');
    tasks, stored := app.tasks, app.storage[StorageKey];
  }

  /** Row level: completing the first of two incomplete rows moves it
      behind the other. */
  lemma CompleteFirstRow(a: Id, b: Id)
    requires a != b
    ensures UpdatedRows([Row(a, false), Row(b, false)], a, true) == [Row(b, false), Row(a, true)]
  {
    var rows := [Row(a, false), Row(b, false)];
    assert FindRow(rows, a) == Some(0);
    CompletingMovesToEnd(rows, a, 0);
    assert RemoveAt(rows, 0) == [Row(b, false)];
    PairFromLast(UpdatedRows(rows, a, true), Row(b, false), Row(a, true));
  }

  /** A two-row list is known from its last row and what is left without it. */
  lemma PairFromLast(r: seq<Row>, x: Row, y: Row)
    requires |r| == 2 && r[1] == y && RemoveAt(r, 1) == [x]
    ensures r == [x, y]
  {
    assert r[0] == RemoveAt(r, 1)[0];
  }

  /** Row level: un-completing the only completed row, which is last,
      leaves it last. */
  lemma UncompleteLastRow(a: Id, b: Id)
    requires a != b
    ensures UpdatedRows([Row(b, false), Row(a, true)], a, false) == [Row(b, false), Row(a, false)]
  {
    var rows := [Row(b, false), Row(a, true)];
    assert rows[0].id != a && rows[1].id == a;
    assert FindRow(rows, a).Some?;
    assert FindRow(rows, a) == Some(1);
    var flagged := [Row(b, false), Row(a, false)];
    assert rows[1 := Row(a, false)] == flagged;
    assert FirstCompleted(flagged) == None;
    assert RemoveAt(flagged, 1) == [Row(b, false)];
  }

  /** The display order of two tasks: incomplete first, then by creation. */
  lemma DisplayTwo(x: Task, y: Task)
    ensures DisplayOrder([x, y]) == if Compare(x, y) <= 0 then [x, y] else [y, x]
  {
    assert [x, y][1..] == [y];
    assert DisplayOrder([y]) == Insert(y, DisplayOrder([])) == [y];
    assert Insert(y, []) == [y];
    assert Compare(x, y) > 0 ==> Insert(x, [y]) == [y] + Insert(x, []);
  }

  lemma RowsOfTwo(x: Task, y: Task)
    ensures RowsOf([x, y]) == [RowOf(x), RowOf(y)]
  {
  }

  /** Stored [A completed, B incomplete], A created no later than B. The
      page shows [B, A]; un-completing A clears its class but, finding no
      other completed row, puts it back at the end, so the rows stay
      [B, A], while a full render of the updated collection shows [A, B]. */
  lemma UncompleteAfterLoad(ta: Task, tb: Task)
    requires ta.id != tb.id && ta.completed && !tb.completed && ta.createdAt <= tb.createdAt
    ensures RowsOf(DisplayOrder([ta, tb])) == [Row(tb.id, false), Row(ta.id, true)]
    ensures UpdatedRows(RowsOf(DisplayOrder([ta, tb])), ta.id, false) == [Row(tb.id, false), Row(ta.id, false)]
    ensures RowsOf(DisplayOrder(SetCompleted([ta, tb], ta.id, false))) == [Row(ta.id, false), Row(tb.id, false)]
  {
    ShownTwo(ta, tb);
    UncompleteLastRow(ta.id, tb.id);
    SetCompletedFirstOfTwo(ta, tb, false);
    ShownTwo(ta.(completed := false), tb);
  }

  /** The rows a full render shows for two tasks. */
  lemma ShownTwo(x: Task, y: Task)
    ensures RowsOf(DisplayOrder([x, y])) == if Compare(x, y) <= 0 then [RowOf(x), RowOf(y)] else [RowOf(y), RowOf(x)]
  {
    DisplayTwo(x, y);
    RowsOfTwo(x, y);
    RowsOfTwo(y, x);
  }

  lemma SetCompletedFirstOfTwo(x: Task, y: Task, isCompleted: bool)
    ensures SetCompleted([x, y], x.id, isCompleted) == [x.(completed := isCompleted), y]
  {
    assert Find([x, y], x.id) == Some(0);
  }

  /** Two incomplete rows, A then B; completing A and then submitting C
      appends C's row after the completed one, and the list is no longer
      incomplete-then-completed. */
  lemma SubmitAfterCompletion(a: Id, b: Id, c: Id)
    requires a != b
    ensures UpdatedRows([Row(a, false), Row(b, false)], a, true) + [Row(c, false)]
      == [Row(b, false), Row(a, true), Row(c, false)]
    ensures !Partitioned(UpdatedRows([Row(a, false), Row(b, false)], a, true) + [Row(c, false)])
  {
    CompleteFirstRow(a, b);
    var r := [Row(b, false), Row(a, true), Row(c, false)];
    assert r[1].completed && !r[2].completed;
  }

  /** Opens the page on a stored array of tasks. */
  method Open(stored: seq<Task>) returns (app: App)
    ensures fresh(app) && app.Valid()
    ensures app.tasks == stored && app.rows == RowsOf(DisplayOrder(stored))
  {
    app := new App(map[StorageKey := TaskArray(stored)]);
  }

  /** Deleting an id no task has leaves the collection and the rows as they
      were. */
  method RemoveStale(a: Id, stale: Id) returns (tasks: seq<Task>, rows: seq<Row>)
    requires a != stale
    ensures tasks == [Task(a, "Write report", false, 1)]
    ensures rows == [Row(a, false)]
  {
    var ta := Task(a, "Write report", false, 1);
    var app := Open([ta]);
    assert DisplayOrder([ta]) == Insert(ta, DisplayOrder([])) == [ta];
    assert app.rows == [Row(a, false)];
    assert stale !in IdSet(app.tasks) by { assert app.tasks == [ta]; }
    app.RemoveTask(stale);
    tasks, rows := app.tasks, app.rows;
  }
}
