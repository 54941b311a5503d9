/** The rendered list under `#tasks`, seen as the order of its rows and the
    `completed` class each one carries, and the incremental updates the
    script applies to it. */
module Rows {
  import opened Seqs
  import opened Tasks

  /** A list item: its `data-task-id` and whether it has class `completed`. */
  datatype Row = Row(id: Id, completed: bool)

  /** The row `addTaskToDOM` builds for a task. */
  function RowOf(t: Task): Row
  {
    Row(t.id, t.completed)
  }

  function RowsOf(tasks: seq<Task>): (r: seq<Row>)
    ensures |r| == |tasks|
    ensures forall i :: 0 <= i < |tasks| ==> r[i] == RowOf(tasks[i])
  {
    seq(|tasks|, i requires 0 <= i < |tasks| => RowOf(tasks[i]))
  }

  /** All incomplete rows come before all completed rows. */
  predicate Partitioned(rows: seq<Row>)
  {
    forall i, j :: 0 <= i < j < |rows| && rows[i].completed ==> rows[j].completed
  }

  predicate NoneCompleted(rows: seq<Row>)
  {
    forall i :: 0 <= i < |rows| ==> !rows[i].completed
  }

  /** `list.querySelector('[data-task-id="…"]')`: the first row, in
      document order, carrying the id. */
  function FindRow(rows: seq<Row>, id: Id): (r: Option<nat>)
    ensures r.Some? ==> r.value < |rows| && rows[r.value].id == id
    ensures r.Some? ==> forall j :: 0 <= j < r.value ==> rows[j].id != id
    ensures r.None? <==> forall j :: 0 <= j < |rows| ==> rows[j].id != id
  {
    FirstIndex(rows, (row: Row) => row.id == id)
  }

  /** `items.find((el) => el.classList.contains("completed"))`. */
  function FirstCompleted(rows: seq<Row>): (r: Option<nat>)
    ensures r.Some? ==> r.value < |rows| && rows[r.value].completed
    ensures r.Some? ==> forall j :: 0 <= j < r.value ==> !rows[j].completed
    ensures r.None? <==> forall j :: 0 <= j < |rows| ==> !rows[j].completed
  {
    FirstIndex(rows, (row: Row) => row.completed)
  }

  /** `s` with `x` inserted at index `p`. */
  function InsertAt<T>(s: seq<T>, p: nat, x: T): (r: seq<T>)
    requires p <= |s|
    ensures |r| == |s| + 1 && r[p] == x
    ensures forall i :: 0 <= i < p ==> r[i] == s[i]
    ensures forall i :: p < i < |r| ==> r[i] == s[i - 1]
    ensures RemoveAt(r, p) == s
    ensures multiset(r) == multiset(s) + multiset{x}
  {
    var r := s[..p] + [x] + s[p..];
    assert s == s[..p] + s[p..];
    assert RemoveAt(r, p) == s;
    r
  }

  /** `list.insertBefore(item, ref)` for the row `item` at index `k` that is
      already in the list: the row is detached and put back immediately
      before the row at `ref`, or at the end when `ref` is null (which is
      also what `list.appendChild(item)` does). */
  function MoveBefore(rows: seq<Row>, k: nat, ref: Option<nat>): (r: seq<Row>)
    requires k < |rows|
    requires ref.Some? ==> ref.value < |rows| && ref.value != k
    ensures |r| == |rows| && multiset(r) == multiset(rows)
    ensures ref.None? ==> r[|r| - 1] == rows[k] && RemoveAt(r, |r| - 1) == RemoveAt(rows, k)
    ensures ref.Some? ==>
      var p := if ref.value < k then ref.value else ref.value - 1;
      r[p] == rows[k] && r[p + 1] == rows[ref.value] && RemoveAt(r, p) == RemoveAt(rows, k)
  {
    MovedRow(rows, k, ref);
    InsertAt(RemoveAt(rows, k), Slot(|rows|, k, ref), rows[k])
  }

  /** Where the moved row lands among `n` rows: at the end, or just before
      the reference row once the moved row itself is out of the way. */
  function Slot(n: nat, k: nat, ref: Option<nat>): (p: nat)
    requires k < n
    requires ref.Some? ==> ref.value < n && ref.value != k
    ensures p < n
    ensures ref.None? ==> p == n - 1
    ensures ref.Some? ==> p == if ref.value < k then ref.value else ref.value - 1
  {
    match ref
    case None => n - 1
    case Some(j) => if j < k then j else j - 1
  }

  /** Detaching the row at `k` and inserting it again at its slot keeps
      the rows as a multiset; the row lands at the end, or just before the
      reference row. */
  lemma MovedRow(rows: seq<Row>, k: nat, ref: Option<nat>)
    requires k < |rows|
    requires ref.Some? ==> ref.value < |rows| && ref.value != k
    ensures var r := InsertAt(RemoveAt(rows, k), Slot(|rows|, k, ref), rows[k]);
      && |r| == |rows| && multiset(r) == multiset(rows)
      && (ref.None? ==> r[|r| - 1] == rows[k] && RemoveAt(r, |r| - 1) == RemoveAt(rows, k))
      && (ref.Some? ==>
            var p := if ref.value < k then ref.value else ref.value - 1;
            r[p] == rows[k] && r[p + 1] == rows[ref.value] && RemoveAt(r, p) == RemoveAt(rows, k))
  {
    var rest := RemoveAt(rows, k);
    var p := Slot(|rows|, k, ref);
    var r := InsertAt(rest, p, rows[k]);
    if ref.Some? {
      assert r[p + 1] == rest[p];
    }
  }
  lemma RemoveAtPartitioned(rows: seq<Row>, k: nat)
    requires k < |rows| && Partitioned(rows)
    ensures Partitioned(RemoveAt(rows, k))
  {
    var r := RemoveAt(rows, k);
    forall i, j | 0 <= i < j < |r| && r[i].completed ensures r[j].completed {
      var i' := if i < k then i else i + 1;
      var j' := if j < k then j else j + 1;
      assert r[i] == rows[i'] && r[j] == rows[j'];
    }
  }

  /** `updateTaskInDOM(id, isCompleted)`: find the row, set or clear its
      `completed` class, then move it to the end (completing) or to just
      before the first row still marked completed, or to the end when there
      is none (un-completing). A missing row leaves the list as it is. */
  function UpdatedRows(rows: seq<Row>, id: Id, isCompleted: bool): (r: seq<Row>)
    ensures FindRow(rows, id).None? ==> r == rows
    ensures FindRow(rows, id).Some? ==>
      multiset(r) + multiset{rows[FindRow(rows, id).value]} == multiset(rows) + multiset{Row(id, isCompleted)}
    ensures |r| == |rows|
  {
    match FindRow(rows, id)
    case None => rows
    case Some(k) =>
      FlaggedAndMoved(rows, k, isCompleted);
      var flagged := rows[k := Row(rows[k].id, isCompleted)];
      if isCompleted then MoveBefore(flagged, k, None)
      else MoveBefore(flagged, k, FirstCompleted(flagged))
  }

  /** Re-flagging the row at `k` and moving it trades that one row for its
      re-flagged copy and leaves every other row in the list. */
  lemma FlaggedAndMoved(rows: seq<Row>, k: nat, isCompleted: bool)
    requires k < |rows|
    ensures var flagged := rows[k := Row(rows[k].id, isCompleted)];
      var r := if isCompleted then MoveBefore(flagged, k, None)
        else MoveBefore(flagged, k, FirstCompleted(flagged));
      && |r| == |rows|
      && multiset(r) + multiset{rows[k]} == multiset(rows) + multiset{Row(rows[k].id, isCompleted)}
  {
    var flagged := rows[k := Row(rows[k].id, isCompleted)];
    assert multiset(flagged) + multiset{rows[k]} == multiset(rows) + multiset{Row(rows[k].id, isCompleted)} by {
      assert rows == rows[..k] + [rows[k]] + rows[k + 1..];
      assert flagged == rows[..k] + [Row(rows[k].id, isCompleted)] + rows[k + 1..];
    }
  }

  /** Completing a row flags it and moves it to the last position; the
      other rows keep their relative order. */
  lemma CompletingMovesToEnd(rows: seq<Row>, id: Id, k: nat)
    requires FindRow(rows, id) == Some(k)
    ensures var r := UpdatedRows(rows, id, true);
      r[|r| - 1] == Row(id, true) && RemoveAt(r, |r| - 1) == RemoveAt(rows, k)
  {
    var flagged := rows[k := Row(id, true)];
    assert RemoveAt(flagged, k) == RemoveAt(rows, k);
  }

  /** Un-completing a row clears its flag and places it immediately before
      the first row still flagged completed, or last when there is none:
      every row before it is incomplete, the row after it (if any) is
      completed, and the other rows keep their relative order. */
  lemma UncompletingPlacement(rows: seq<Row>, id: Id, k: nat) returns (p: nat)
    requires FindRow(rows, id) == Some(k)
    ensures var r := UpdatedRows(rows, id, false);
      && p < |r| && r[p] == Row(id, false)
      && RemoveAt(r, p) == RemoveAt(rows, k)
      && (forall i :: 0 <= i < p ==> !r[i].completed)
      && (p + 1 < |r| ==> r[p + 1].completed)
  {
    var flagged := rows[k := Row(id, false)];
    assert RemoveAt(flagged, k) == RemoveAt(rows, k);
    p := MoveBeforeFirstCompleted(flagged, k);
  }

  /** Moving an incomplete row before the first completed one (or last)
      puts it after incomplete rows only and before a completed row. */
  lemma MoveBeforeFirstCompleted(s: seq<Row>, k: nat) returns (p: nat)
    requires k < |s| && !s[k].completed
    ensures var r := MoveBefore(s, k, FirstCompleted(s));
      && p < |r| && r[p] == s[k]
      && RemoveAt(r, p) == RemoveAt(s, k)
      && (forall i :: 0 <= i < p ==> !r[i].completed)
      && (p + 1 < |r| ==> r[p + 1].completed)
  {
    var rest := RemoveAt(s, k);
    p := FirstCompletedAfterRemoval(s, k);
    assert MoveBefore(s, k, FirstCompleted(s)) == InsertAt(rest, p, s[k]);
    InsertBeforeCompleted(rest, p, s[k]);
  }

  /** Where the first completed row sits once row `k` is taken out: every
      row before that position is incomplete and the row there, if any,
      is completed. */
  lemma FirstCompletedAfterRemoval(s: seq<Row>, k: nat) returns (p: nat)
    requires k < |s| && !s[k].completed
    ensures p == match FirstCompleted(s)
      case None => |s| - 1
      case Some(j) => if j < k then j else j - 1
    ensures var rest := RemoveAt(s, k);
      && p <= |rest|
      && (forall i :: 0 <= i < p ==> !rest[i].completed)
      && (p < |rest| ==> rest[p].completed)
  {
    var first := FirstCompleted(s);
    var rest := RemoveAt(s, k);
    p := match first
      case None => |s| - 1
      case Some(j) => if j < k then j else j - 1;
    var m := if first.None? then |s| else first.value;
    IncompletePrefixRemoveAt(s, k, m);
    if p < |rest| {
      var j := first.value;
      if j < k {
        assert rest[p] == s[j];
      } else {
        assert rest[p] == s[p + 1];
      }
    }
  }

  /** Inserting right before the first completed element of a list whose
      earlier elements are all incomplete. */
  lemma InsertBeforeCompleted(rest: seq<Row>, p: nat, x: Row)
    requires p <= |rest|
    requires forall i :: 0 <= i < p ==> !rest[i].completed
    requires p < |rest| ==> rest[p].completed
    ensures var r := InsertAt(rest, p, x);
      && (forall i :: 0 <= i < p ==> !r[i].completed)
      && (p + 1 < |r| ==> r[p + 1].completed)
  {
    var r := InsertAt(rest, p, x);
    forall i | 0 <= i < p ensures !r[i].completed {
      assert r[i] == rest[i];
    }
    if p + 1 < |r| {
      assert r[p + 1] == rest[p];
    }
  }

  /** Taking a row out of a list whose first `m` rows are incomplete
      leaves a list whose first `m` rows, less the one taken out if it was
      among them, are incomplete. */
  lemma IncompletePrefixRemoveAt(s: seq<Row>, k: nat, m: nat)
    requires k < |s| && m <= |s|
    requires forall j :: 0 <= j < m ==> !s[j].completed
    ensures var rest := RemoveAt(s, k);
      forall i :: 0 <= i < m - (if k < m then 1 else 0) ==> !rest[i].completed
  {
    var rest := RemoveAt(s, k);
    forall i | 0 <= i < m - (if k < m then 1 else 0) ensures !rest[i].completed {
      if i < k {
        assert rest[i] == s[i];
      } else {
        assert rest[i] == s[i + 1];
      }
    }
  }

  /** Completing or un-completing a row keeps the list partitioned into
      incomplete rows followed by completed rows. */
  lemma UpdatedRowsPartitioned(rows: seq<Row>, id: Id, isCompleted: bool)
    requires Partitioned(rows)
    ensures Partitioned(UpdatedRows(rows, id, isCompleted))
  {
    match FindRow(rows, id)
    case None =>
    case Some(k) =>
      var r := UpdatedRows(rows, id, isCompleted);
      var rest := RemoveAt(rows, k);
      RemoveAtPartitioned(rows, k);
      if isCompleted {
        CompletingMovesToEnd(rows, id, k);
        forall i, j | 0 <= i < j < |r| && r[i].completed ensures r[j].completed {
          if j < |r| - 1 {
            assert r[i] == rest[i] && r[j] == rest[j];
          }
        }
      } else {
        var p := UncompletingPlacement(rows, id, k);
        forall i, j | 0 <= i < j < |r| && r[i].completed ensures r[j].completed {
          assert p < i;
          assert r[i] == RemoveAt(r, p)[i - 1] && r[j] == RemoveAt(r, p)[j - 1];
        }
      }
  }

  /** `item?.remove()` after the lookup: the first row carrying the id is
      detached and the others keep their order; a missing row is ignored. */
  function DetachRow(rows: seq<Row>, id: Id): (r: seq<Row>)
    ensures FindRow(rows, id).None? ==> r == rows
    ensures FindRow(rows, id).Some? ==>
      var k := FindRow(rows, id).value;
      && r == RemoveAt(rows, k)
      && |r| == |rows| - 1 && multiset(r) + multiset{rows[k]} == multiset(rows)
    ensures Partitioned(rows) ==> Partitioned(r)
  {
    match FindRow(rows, id)
    case None => rows
    case Some(k) =>
      assert Partitioned(rows) ==> Partitioned(RemoveAt(rows, k)) by {
        if Partitioned(rows) {
          RemoveAtPartitioned(rows, k);
        }
      }
      RemoveAt(rows, k)
  }

  /** `list.appendChild(fragment)` for a new task's row puts it last. The
      list stays partitioned only if no completed row is present: appending
      does not, by itself, keep the order. */
  lemma AppendIncompletePartitioned(rows: seq<Row>, id: Id)
    ensures Partitioned(rows + [Row(id, false)]) <==> Partitioned(rows) && NoneCompleted(rows)
  {
    var r := rows + [Row(id, false)];
    if Partitioned(r) {
      forall i | 0 <= i < |rows| ensures !rows[i].completed {
        assert r[i] == rows[i] && r[|rows|] == Row(id, false);
      }
    }
  }
}
