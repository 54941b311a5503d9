/** The display order `renderTasks` computes: a copy of the collection
    sorted, stably, by the comparator
    `a.completed - b.completed || a.createdAt - b.createdAt`. */
module Display {
  import opened Tasks

  function Flag(b: bool): int
  {
    if b then 1 else 0
  }

  /** The comparator: negative when `a` is to be shown before `b`. An
      incomplete task goes before a completed one; inside a group the
      earlier `createdAt` goes first, and equal times tie. */
  function Compare(a: Task, b: Task): (r: int)
    ensures !a.completed && b.completed ==> r < 0
    ensures a.completed && !b.completed ==> r > 0
    ensures a.completed == b.completed ==>
      (r < 0 <==> a.createdAt < b.createdAt) && (r == 0 <==> a.createdAt == b.createdAt)
  {
    var byCompleted := Flag(a.completed) - Flag(b.completed);
    if byCompleted != 0 then byCompleted else a.createdAt - b.createdAt
  }

  /** The comparator reports a tie exactly when both keys agree. */
  predicate Tied(a: Task, b: Task)
  {
    a.completed == b.completed && a.createdAt == b.createdAt
  }

  lemma CompareFacts(a: Task, b: Task, c: Task)
    ensures Compare(a, b) == 0 <==> Tied(a, b)
    ensures Compare(a, b) > 0 ==> Compare(b, a) < 0
    ensures Compare(a, b) <= 0 && Compare(b, c) <= 0 ==> Compare(a, c) <= 0
  {
  }

  /** Every element is shown no later than every element after it. */
  predicate Sorted(s: seq<Task>)
  {
    forall i, j :: 0 <= i < j < |s| ==> Compare(s[i], s[j]) <= 0
  }

  /** Places `x` before the first element it does not sort after, so that
      it stays ahead of the elements it ties with. */
  function Insert(x: Task, s: seq<Task>): (r: seq<Task>)
    ensures multiset(r) == multiset(s) + multiset{x}
  {
    if s == [] then [x]
    else if Compare(x, s[0]) <= 0 then [x] + s
    else
      assert s == [s[0]] + s[1..];
      [s[0]] + Insert(x, s[1..])
  }

  /** Insertion into a sorted sequence keeps it sorted. */
  lemma {:induction false} InsertSorted(x: Task, s: seq<Task>)
    requires Sorted(s)
    ensures Sorted(Insert(x, s))
  {
    if s == [] {
    } else if Compare(x, s[0]) <= 0 {
      forall j | 0 <= j < |s| ensures Compare(x, s[j]) <= 0 {
        CompareFacts(x, s[0], s[j]);
      }
    } else {
      var rest := Insert(x, s[1..]);
      InsertSorted(x, s[1..]);
      forall j | 0 <= j < |rest| ensures Compare(s[0], rest[j]) <= 0 {
        assert rest[j] in multiset(rest);
        if rest[j] != x {
          assert rest[j] in s[1..];
        } else {
          CompareFacts(x, s[0], s[0]);
        }
      }
    }
  }

  /** The sorted copy: a stable insertion sort by `Compare`. It is a
      permutation of the collection. */
  function DisplayOrder(tasks: seq<Task>): (r: seq<Task>)
    ensures multiset(r) == multiset(tasks)
  {
    if tasks == [] then []
    else
      assert tasks == [tasks[0]] + tasks[1..];
      Insert(tasks[0], DisplayOrder(tasks[1..]))
  }

  /** The elements of `s` the comparator ties with `t`, in their order. */
  function Ties(s: seq<Task>, t: Task): seq<Task>
  {
    if s == [] then [] else (if Tied(s[0], t) then [s[0]] else []) + Ties(s[1..], t)
  }

  /** Insertion only passes over elements that sort strictly before `x`,
      so the ties of any `t` see `x` first among those tied with it. */
  lemma {:induction false} TiesInsert(x: Task, s: seq<Task>, t: Task)
    ensures Ties(Insert(x, s), t) == (if Tied(x, t) then [x] else []) + Ties(s, t)
  {
    if s == [] {
      assert Insert(x, s) == [x];
      assert [x][1..] == [];
    } else if Compare(x, s[0]) > 0 {
      TiesInsert(x, s[1..], t);
      TiesPassOver(x, s, t);
    } else {
      assert Insert(x, s) == [x] + s;
      assert ([x] + s)[1..] == s;
    }
  }

  /** One step of `TiesInsert`: passing over a head that sorts strictly
      before `x`, which cannot tie with `t` when `x` does. */
  lemma TiesPassOver(x: Task, s: seq<Task>, t: Task)
    requires s != [] && Compare(x, s[0]) > 0
    requires Ties(Insert(x, s[1..]), t) == (if Tied(x, t) then [x] else []) + Ties(s[1..], t)
    ensures Ties(Insert(x, s), t) == (if Tied(x, t) then [x] else []) + Ties(s, t)
  {
    var rest := Insert(x, s[1..]);
    var head := if Tied(s[0], t) then [s[0]] else [];
    var mine := if Tied(x, t) then [x] else [];
    assert Insert(x, s) == [s[0]] + rest;
    assert ([s[0]] + rest)[1..] == rest;
    assert Ties(Insert(x, s), t) == head + (mine + Ties(s[1..], t));
    assert Ties(s, t) == head + Ties(s[1..], t);
    if Tied(x, t) {
      assert !Tied(s[0], t);
      assert head + (mine + Ties(s[1..], t)) == mine + Ties(s[1..], t);
      assert head + Ties(s[1..], t) == Ties(s[1..], t);
    } else {
      assert mine + Ties(s[1..], t) == Ties(s[1..], t);
      assert mine + Ties(s, t) == Ties(s, t);
    }
  }

  /** The display order is sorted by the comparator: every incomplete task
      precedes every completed one, and inside each group `createdAt`
      never decreases. */
  lemma {:induction false} DisplayOrderSorted(tasks: seq<Task>)
    ensures Sorted(DisplayOrder(tasks))
    ensures var r := DisplayOrder(tasks);
      forall i, j :: 0 <= i < j < |r| && r[i].completed ==> r[j].completed
    ensures var r := DisplayOrder(tasks);
      forall i, j :: 0 <= i < j < |r| && r[i].completed == r[j].completed ==> r[i].createdAt <= r[j].createdAt
  {
    if tasks != [] {
      DisplayOrderSorted(tasks[1..]);
      InsertSorted(tasks[0], DisplayOrder(tasks[1..]));
    }
  }

  /** The sort is stable: the tasks tied with any `t` appear in the
      display order exactly as they appear in the collection. */
  lemma {:induction false} DisplayOrderStable(tasks: seq<Task>, t: Task)
    ensures Ties(DisplayOrder(tasks), t) == Ties(tasks, t)
  {
    if tasks != [] {
      DisplayOrderStable(tasks[1..], t);
      TiesInsert(tasks[0], DisplayOrder(tasks[1..]), t);
    }
  }
}
