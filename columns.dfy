/** The position algebra of the board, on values: a store is a map from id to
    row, a column is the set of rows sharing a status, and the operations of the
    repository and the service are described here as functions of the old store.
    The lemmas state what those operations do to the columns, chiefly that they
    keep every column dense (positions exactly 0..n-1). */
module Columns {
  import opened Entity

  type Rows = map<TaskId, Task>

  /** Every row is stored under its own id. */
  ghost predicate WellKeyed(rows: Rows)
  {
    forall id :: id in rows ==> rows[id].id == id
  }

  /** The ids of the tasks in column `s`. */
  function Column(rows: Rows, s: Status): set<TaskId>
  {
    set id | id in rows && rows[id].status == s
  }

  /** Column `s` holds n tasks whose positions are pairwise distinct and lie in
      0..n-1, i.e. they are exactly 0..n-1. */
  ghost predicate Dense(rows: Rows, s: Status)
  {
    && (forall id :: id in rows && rows[id].status == s ==> 0 <= rows[id].position < |Column(rows, s)|)
    && (forall a, b :: a in rows && b in rows && a != b && rows[a].status == s && rows[b].status == s
          ==> rows[a].position != rows[b].position)
  }

  ghost predicate AllDense(rows: Rows)
  {
    forall s :: Dense(rows, s)
  }

  /** A store whose column `s` has the same members at the same positions as a
      dense column is dense in `s` too. */
  lemma DenseTransfer(rows: Rows, rows': Rows, s: Status)
    requires Dense(rows, s)
    requires rows'.Keys == rows.Keys
    requires forall id :: id in rows ==> (rows'[id].status == s <==> rows[id].status == s)
    requires forall id :: id in rows && rows[id].status == s ==> rows'[id].position == rows[id].position
    ensures Dense(rows', s)
  {
    assert Column(rows', s) == Column(rows, s);
  }

  // ---------------------------------------------------------------------------
  // The bulk UPDATE statements of the repository

  /** The position filter of a bulk UPDATE: `position > p`, `position >= p`, or
      `lo <= position <= hi`. */
  datatype Range = Above(p: int) | AtLeast(p: int) | Between(lo: int, hi: int)

  predicate Selects(r: Range, position: int)
  {
    match r
    case Above(p) => position > p
    case AtLeast(p) => position >= p
    case Between(lo, hi) => lo <= position <= hi
  }

  /** `UPDATE Task t SET t.position = t.position + delta WHERE t.status = s AND <r>`. */
  function Shift(rows: Rows, s: Status, r: Range, delta: int): (shifted: Rows)
    ensures shifted.Keys == rows.Keys
    ensures forall id :: id in rows && rows[id].status != s ==> shifted[id] == rows[id]
  {
    map id | id in rows ::
      if rows[id].status == s && Selects(r, rows[id].position)
      then rows[id].(position := rows[id].position + delta)
      else rows[id]
  }

  /** A shift moves by `delta` exactly the rows of column `s` its range selects,
      and keeps every id, status and payload. */
  lemma ShiftEffect(rows: Rows, s: Status, r: Range, delta: int)
    ensures forall id :: id in rows ==>
      var t, u := rows[id], Shift(rows, s, r, delta)[id];
      && u.id == t.id && u.status == t.status && u.payload == t.payload
      && u.position == (if t.status == s && Selects(r, t.position) then t.position + delta else t.position)
  {
  }

  /** A range with lo > hi selects nothing, so the UPDATE changes no row. */
  lemma EmptyRangeChangesNothing(rows: Rows, s: Status, lo: int, hi: int, delta: int)
    requires lo > hi
    ensures Shift(rows, s, Between(lo, hi), delta) == rows
  {
    var u := Shift(rows, s, Between(lo, hi), delta);
    assert forall id :: id in rows ==> !Selects(Between(lo, hi), rows[id].position);
    assert u.Keys == rows.Keys;
  }

  // ---------------------------------------------------------------------------
  // moveTask

  /** The same-column move: shift the rows between the old and the new slot by
      one towards the old slot, then write the loaded task back with the new
      position. `t` is the row as it was loaded before the shift. */
  function MovedWithin(rows: Rows, t: Task, newPosition: int): (moved: Rows)
    ensures moved.Keys == rows.Keys + {t.id}
    ensures forall x :: x in rows && x != t.id && rows[x].status != t.status ==> moved[x] == rows[x]
  {
    var shifted :=
      if t.position < newPosition
      then Shift(rows, t.status, Between(t.position + 1, newPosition), -1)
      else Shift(rows, t.status, Between(newPosition, t.position - 1), 1);
    shifted[t.id := t.(position := newPosition)]
  }

  /** The cross-column move: close the gap in the old column, open a slot in the
      new one, then write the loaded task back with its new status and position. */
  function MovedAcross(rows: Rows, t: Task, newStatus: Status, newPosition: int): (moved: Rows)
    ensures moved.Keys == rows.Keys + {t.id}
    ensures forall x :: x in rows && x != t.id && rows[x].status != t.status && rows[x].status != newStatus ==>
      moved[x] == rows[x]
  {
    var closed := Shift(rows, t.status, Above(t.position), -1);
    var spread := Shift(closed, newStatus, AtLeast(newPosition), 1);
    spread[t.id := t.(status := newStatus, position := newPosition)]
  }

  /** The store after moveTask on the loaded task `t`: no row is added or
      lost, and the rows of a column neither left nor entered stay as they are. */
  function Moved(rows: Rows, t: Task, newStatus: Status, newPosition: int): (moved: Rows)
    ensures rows.Keys <= moved.Keys
    ensures t.id in rows ==> moved.Keys == rows.Keys
    ensures forall x :: x in rows && x != t.id && rows[x].status != t.status && rows[x].status != newStatus ==>
      moved[x] == rows[x]
  {
    if t.status == newStatus && t.position == newPosition then rows
    else if t.status == newStatus then MovedWithin(rows, t, newPosition)
    else MovedAcross(rows, t, newStatus, newPosition)
  }

  /** The target a density-preserving move may name: a slot of the column for a
      same-column move, a slot or one past the end for a cross-column move. */
  predicate InRange(rows: Rows, t: Task, newStatus: Status, newPosition: int)
  {
    && 0 <= newPosition
    && (if t.status == newStatus then newPosition < |Column(rows, newStatus)|
        else newPosition <= |Column(rows, newStatus)|)
  }

  /** A move lands the moving task on its target. */
  lemma MovedTarget(rows: Rows, t: Task, newStatus: Status, newPosition: int)
    ensures !(t.status == newStatus && t.position == newPosition) ==>
      Moved(rows, t, newStatus, newPosition)[t.id] == t.(status := newStatus, position := newPosition)
  {
  }

  /** The same-column move, for one row other than the moving one. */
  lemma MovedWithinAt(rows: Rows, t: Task, newPosition: int, x: TaskId)
    requires newPosition != t.position && x in rows && x != t.id
    ensures x in Moved(rows, t, t.status, newPosition)
    ensures var u, v := rows[x], Moved(rows, t, t.status, newPosition)[x];
      v == if u.status == t.status && t.position < newPosition && t.position + 1 <= u.position <= newPosition
           then u.(position := u.position - 1)
           else if u.status == t.status && newPosition < t.position && newPosition <= u.position <= t.position - 1
           then u.(position := u.position + 1)
           else u
  {
  }

  /** The cross-column move, for one row other than the moving one. */
  lemma MovedAcrossAt(rows: Rows, t: Task, newStatus: Status, newPosition: int, x: TaskId)
    requires newStatus != t.status && x in rows && x != t.id
    ensures x in Moved(rows, t, newStatus, newPosition)
    ensures var u, v := rows[x], Moved(rows, t, newStatus, newPosition)[x];
      v == if u.status == t.status && u.position > t.position then u.(position := u.position - 1)
           else if u.status == newStatus && u.position >= newPosition then u.(position := u.position + 1)
           else u
  {
    var closed := Shift(rows, t.status, Above(t.position), -1);
    assert closed[x].status == rows[x].status;
  }

  /** The two-step move never shifts the moving row itself: in the same-column
      case its old slot lies outside the shifted range, in the cross-column case
      the old-column filter is `> old` and the new-column filter is on the other
      status. So writing back the row as loaded loses no shift. */
  lemma MovingRowNotShifted(rows: Rows, t: Task, newStatus: Status, newPosition: int)
    requires t.id in rows && rows[t.id] == t
    requires !(t.status == newStatus && t.position == newPosition)
    ensures t.status == newStatus && t.position < newPosition ==>
      Shift(rows, t.status, Between(t.position + 1, newPosition), -1)[t.id] == t
    ensures t.status == newStatus && newPosition < t.position ==>
      Shift(rows, t.status, Between(newPosition, t.position - 1), 1)[t.id] == t
    ensures t.status != newStatus ==>
      && Shift(rows, t.status, Above(t.position), -1)[t.id] == t
      && Shift(Shift(rows, t.status, Above(t.position), -1), newStatus, AtLeast(newPosition), 1)[t.id] == t
  {
  }

  /** A move whose target is the task's own status and position changes nothing. */
  lemma NoOpMove(rows: Rows, t: Task)
    ensures Moved(rows, t, t.status, t.position) == rows
  {
  }

  lemma SameColumnStaysDense(rows: Rows, t: Task, newPosition: int)
    requires t.id in rows && rows[t.id] == t
    requires Dense(rows, t.status)
    requires 0 <= newPosition < |Column(rows, t.status)| && newPosition != t.position
    ensures Dense(Moved(rows, t, t.status, newPosition), t.status)
  {
    var s, o := t.status, t.position;
    var m := Moved(rows, t, s, newPosition);
    MovedTarget(rows, t, s, newPosition);
    assert Column(m, s) == Column(rows, s) by {
      forall id | id in rows && id != t.id ensures m[id].status == rows[id].status {
        MovedWithinAt(rows, t, newPosition, id);
      }
    }
    forall x | x in m && m[x].status == s
      ensures 0 <= m[x].position < |Column(m, s)|
    {
      if x != t.id {
        MovedWithinAt(rows, t, newPosition, x);
        assert rows[x].position != o;
      }
    }
    forall a, b | a in m && b in m && a != b && m[a].status == s && m[b].status == s
      ensures m[a].position != m[b].position
    {
      if a != t.id {
        MovedWithinAt(rows, t, newPosition, a);
        assert rows[a].position != o;
      }
      if b != t.id {
        MovedWithinAt(rows, t, newPosition, b);
        assert rows[b].position != o;
      }
    }
  }

  lemma SameColumnOthersStayDense(rows: Rows, t: Task, newPosition: int, s: Status)
    requires t.id in rows && rows[t.id] == t
    requires Dense(rows, s) && s != t.status && newPosition != t.position
    ensures Dense(Moved(rows, t, t.status, newPosition), s)
  {
    var m := Moved(rows, t, t.status, newPosition);
    MovedTarget(rows, t, t.status, newPosition);
    forall id | id in rows && id != t.id
      ensures m[id] == rows[id] || (m[id].status == t.status && rows[id].status == t.status)
    {
      MovedWithinAt(rows, t, newPosition, id);
    }
    DenseTransfer(rows, m, s);
  }

  /** Column membership after a cross-column move: the old column loses the
      task, the new column gains it, the others keep their members. */
  lemma AcrossColumns(rows: Rows, t: Task, newStatus: Status, newPosition: int)
    requires t.id in rows && rows[t.id] == t
    requires newStatus != t.status
    ensures var m := Moved(rows, t, newStatus, newPosition);
      && Column(m, t.status) == Column(rows, t.status) - {t.id}
      && Column(m, newStatus) == Column(rows, newStatus) + {t.id}
      && t.id in Column(rows, t.status) && t.id !in Column(rows, newStatus)
  {
    var m := Moved(rows, t, newStatus, newPosition);
    MovedTarget(rows, t, newStatus, newPosition);
    forall id | id in rows && id != t.id ensures m[id].status == rows[id].status {
      MovedAcrossAt(rows, t, newStatus, newPosition, id);
    }
  }

  lemma LeftColumnStaysDense(rows: Rows, t: Task, newStatus: Status, newPosition: int)
    requires t.id in rows && rows[t.id] == t
    requires Dense(rows, t.status) && newStatus != t.status
    ensures Dense(Moved(rows, t, newStatus, newPosition), t.status)
  {
    var so, o := t.status, t.position;
    var m := Moved(rows, t, newStatus, newPosition);
    MovedTarget(rows, t, newStatus, newPosition);
    AcrossColumns(rows, t, newStatus, newPosition);
    assert |Column(m, so)| == |Column(rows, so)| - 1;
    forall x | x in m && m[x].status == so
      ensures 0 <= m[x].position < |Column(m, so)|
    {
      MovedAcrossAt(rows, t, newStatus, newPosition, x);
      assert rows[x].position != o;
    }
    forall a, b | a in m && b in m && a != b && m[a].status == so && m[b].status == so
      ensures m[a].position != m[b].position
    {
      MovedAcrossAt(rows, t, newStatus, newPosition, a);
      MovedAcrossAt(rows, t, newStatus, newPosition, b);
      assert rows[a].position != o && rows[b].position != o;
    }
  }

  lemma EnteredColumnStaysDense(rows: Rows, t: Task, newStatus: Status, newPosition: int)
    requires t.id in rows && rows[t.id] == t
    requires Dense(rows, newStatus) && newStatus != t.status
    requires 0 <= newPosition <= |Column(rows, newStatus)|
    ensures Dense(Moved(rows, t, newStatus, newPosition), newStatus)
  {
    var sn := newStatus;
    var m := Moved(rows, t, sn, newPosition);
    MovedTarget(rows, t, sn, newPosition);
    AcrossColumns(rows, t, sn, newPosition);
    assert |Column(m, sn)| == |Column(rows, sn)| + 1;
    forall x | x in m && m[x].status == sn
      ensures 0 <= m[x].position < |Column(m, sn)|
    {
      if x != t.id {
        MovedAcrossAt(rows, t, sn, newPosition, x);
      }
    }
    forall a, b | a in m && b in m && a != b && m[a].status == sn && m[b].status == sn
      ensures m[a].position != m[b].position
    {
      if a != t.id { MovedAcrossAt(rows, t, sn, newPosition, a); }
      if b != t.id { MovedAcrossAt(rows, t, sn, newPosition, b); }
    }
  }

  lemma AcrossOthersStayDense(rows: Rows, t: Task, newStatus: Status, newPosition: int, s: Status)
    requires t.id in rows && rows[t.id] == t
    requires Dense(rows, s) && newStatus != t.status && s != t.status && s != newStatus
    ensures Dense(Moved(rows, t, newStatus, newPosition), s)
  {
    var m := Moved(rows, t, newStatus, newPosition);
    MovedTarget(rows, t, newStatus, newPosition);
    forall id | id in rows && id != t.id ensures m[id].status == rows[id].status {
      MovedAcrossAt(rows, t, newStatus, newPosition, id);
    }
    forall id | id in rows && rows[id].status == s ensures m[id].position == rows[id].position {
      MovedAcrossAt(rows, t, newStatus, newPosition, id);
    }
    DenseTransfer(rows, m, s);
  }

  /** moveTask keeps every column dense when every column was dense and the
      target is in range. */
  lemma MovePreservesDensity(rows: Rows, t: Task, newStatus: Status, newPosition: int)
    requires t.id in rows && rows[t.id] == t
    requires AllDense(rows)
    requires InRange(rows, t, newStatus, newPosition)
    ensures AllDense(Moved(rows, t, newStatus, newPosition))
  {
    forall s ensures Dense(Moved(rows, t, newStatus, newPosition), s) {
      assert Dense(rows, s);
      if t.status == newStatus && t.position == newPosition {
      } else if t.status == newStatus {
        if s == t.status {
          SameColumnStaysDense(rows, t, newPosition);
        } else {
          SameColumnOthersStayDense(rows, t, newPosition, s);
        }
      } else if s == t.status {
        LeftColumnStaysDense(rows, t, newStatus, newPosition);
      } else if s == newStatus {
        EnteredColumnStaysDense(rows, t, newStatus, newPosition);
      } else {
        AcrossOthersStayDense(rows, t, newStatus, newPosition, s);
      }
    }
  }

  /** The code does not clamp the target: a target past the end leaves the task
      outside 0..n-1 of its column, so the column is no longer dense. */
  lemma OutOfRangeMoveLeavesGap(rows: Rows, t: Task, newStatus: Status, newPosition: int)
    requires t.id in rows && rows[t.id] == t
    requires 0 <= newPosition && !InRange(rows, t, newStatus, newPosition)
    ensures !Dense(Moved(rows, t, newStatus, newPosition), newStatus)
  {
    var m := Moved(rows, t, newStatus, newPosition);
    MovedTarget(rows, t, newStatus, newPosition);
    if t.status == newStatus && t.position == newPosition {
    } else if t.status == newStatus {
      assert Column(m, newStatus) == Column(rows, newStatus) by {
        forall id | id in rows && id != t.id ensures m[id].status == rows[id].status {
          MovedWithinAt(rows, t, newPosition, id);
        }
      }
    } else {
      AcrossColumns(rows, t, newStatus, newPosition);
    }
    assert m[t.id].status == newStatus && m[t.id].position >= |Column(m, newStatus)|;
  }

  // ---------------------------------------------------------------------------
  // createTask

  /** Appending a task at position n of its column keeps every column dense. */
  lemma AppendPreservesDensity(rows: Rows, t: Task)
    requires t.id !in rows && t.position == |Column(rows, t.status)|
    requires AllDense(rows)
    ensures AllDense(rows[t.id := t])
  {
    var m := rows[t.id := t];
    assert Column(m, t.status) == Column(rows, t.status) + {t.id};
    forall s ensures Dense(m, s) {
      assert Dense(rows, s);
      if s != t.status {
        assert Column(m, s) == Column(rows, s);
      }
    }
  }

  // ---------------------------------------------------------------------------
  // updateTask

  /** Rewriting the payload of a row leaves every column's members and positions
      as they were. */
  lemma PayloadEditKeepsColumns(rows: Rows, id: TaskId, payload: Payload)
    requires id in rows
    ensures forall s :: Column(rows[id := rows[id].(payload := payload)], s) == Column(rows, s)
    ensures AllDense(rows) ==> AllDense(rows[id := rows[id].(payload := payload)])
  {
    var m := rows[id := rows[id].(payload := payload)];
    forall s ensures Column(m, s) == Column(rows, s) {
      assert forall x :: x in rows ==> m[x].status == rows[x].status;
    }
    if AllDense(rows) {
      forall s ensures Dense(m, s) {
        DenseTransfer(rows, m, s);
      }
    }
  }

  // ---------------------------------------------------------------------------
  // Ordered listings (what the finders return)

  function Ids(tasks: seq<Task>): set<TaskId>
  {
    set i | 0 <= i < |tasks| :: tasks[i].id
  }

  predicate DistinctIds(tasks: seq<Task>)
  {
    forall i, j :: 0 <= i < j < |tasks| ==> tasks[i].id != tasks[j].id
  }

  predicate ByPosition(tasks: seq<Task>)
  {
    forall i, j :: 0 <= i < j < |tasks| ==> tasks[i].position <= tasks[j].position
  }

  /** `tasks` lists, once each and as stored, every row of column `s` (every row
      at all when `all` holds) and nothing else. */
  ghost predicate Listing(rows: Rows, all: bool, s: Status, tasks: seq<Task>)
  {
    && (forall i :: 0 <= i < |tasks| ==>
          tasks[i].id in rows && rows[tasks[i].id] == tasks[i] && (all || tasks[i].status == s))
    && (forall id :: id in rows && (all || rows[id].status == s) ==> id in Ids(tasks))
    && DistinctIds(tasks)
  }

  /** What findByStatusOrderByPositionAsc(s) returns: each stored row of column
      `s` exactly once, as stored, in ascending position. */
  ghost predicate ColumnListing(rows: Rows, s: Status, tasks: seq<Task>)
  {
    Listing(rows, false, s, tasks) && ByPosition(tasks)
  }

  /** A list with distinct ids has as many ids as elements. */
  lemma {:induction false} DistinctIdsCount(tasks: seq<Task>)
    requires DistinctIds(tasks)
    ensures |Ids(tasks)| == |tasks|
  {
    if |tasks| > 0 {
      var init := tasks[..|tasks| - 1];
      DistinctIdsCount(init);
      assert Ids(tasks) == Ids(init) + {tasks[|tasks| - 1].id};
      assert tasks[|tasks| - 1].id !in Ids(init);
    }
  }

  /** A listing of a column is as long as the column. */
  lemma ListingLength(rows: Rows, s: Status, tasks: seq<Task>)
    requires ColumnListing(rows, s, tasks)
    ensures |tasks| == |Column(rows, s)|
  {
    DistinctIdsCount(tasks);
    assert Ids(tasks) == Column(rows, s);
  }

  /** Strictly increasing positions drift apart at least as fast as the indices. */
  lemma {:induction false} IncreasingSpread(tasks: seq<Task>, i: nat, j: nat)
    requires forall k :: 0 < k < |tasks| ==> tasks[k - 1].position < tasks[k].position
    requires i <= j < |tasks|
    ensures tasks[j].position - tasks[i].position >= j - i
  {
    if i < j {
      IncreasingSpread(tasks, i, j - 1);
    }
  }

  /** In the position-ordered listing of a dense column, every task sits at the
      index equal to its position: the positions are exactly 0..n-1. */
  lemma DenseListingAtIndex(rows: Rows, s: Status, tasks: seq<Task>)
    requires Dense(rows, s) && ColumnListing(rows, s, tasks)
    ensures forall i :: 0 <= i < |tasks| ==> tasks[i].position == i
  {
    ListingLength(rows, s, tasks);
    var n := |tasks|;
    forall k | 0 < k < n ensures tasks[k - 1].position < tasks[k].position {
      assert tasks[k - 1].id != tasks[k].id;
    }
    forall i | 0 <= i < n ensures tasks[i].position == i {
      IncreasingSpread(tasks, 0, i);
      IncreasingSpread(tasks, i, n - 1);
    }
  }

  // ---------------------------------------------------------------------------
  // deleteTask

  /** The loop of deleteTask that drops the deleted task from the listing. */
  function Without(tasks: seq<Task>, id: TaskId): (rest: seq<Task>)
    ensures |rest| <= |tasks|
    ensures forall i :: 0 <= i < |rest| ==> rest[i] in tasks && rest[i].id != id
  {
    if |tasks| == 0 then []
    else Without(tasks[..|tasks| - 1], id) + (if tasks[|tasks| - 1].id == id then [] else [tasks[|tasks| - 1]])
  }

  /** Filtering out an id the list does not hold changes nothing. */
  lemma {:induction false} WithoutAbsent(tasks: seq<Task>, id: TaskId)
    requires forall i :: 0 <= i < |tasks| ==> tasks[i].id != id
    ensures Without(tasks, id) == tasks
  {
    if |tasks| > 0 {
      WithoutAbsent(tasks[..|tasks| - 1], id);
    }
  }

  /** On a list with distinct ids, dropping `id` at index p leaves the rest in order. */
  lemma {:induction false} WithoutAt(tasks: seq<Task>, id: TaskId, p: nat)
    requires DistinctIds(tasks) && p < |tasks| && tasks[p].id == id
    ensures Without(tasks, id) == tasks[..p] + tasks[p + 1..]
  {
    var last := |tasks| - 1;
    if p == last {
      WithoutAbsent(tasks[..last], id);
    } else {
      WithoutAt(tasks[..last], id, p);
      assert tasks[..last][..p] == tasks[..p];
      assert tasks[p + 1..] == tasks[..last][p + 1..] + [tasks[last]];
    }
  }

  /** Index arithmetic of a list with the element at index p dropped. */
  lemma SpliceAt(tasks: seq<Task>, p: nat)
    requires p < |tasks|
    ensures |tasks[..p] + tasks[p + 1..]| == |tasks| - 1
    ensures forall i :: 0 <= i < |tasks| - 1 ==>
      (tasks[..p] + tasks[p + 1..])[i] == if i < p then tasks[i] else tasks[i + 1]
  {
  }

  lemma SpliceStored(rows: Rows, s: Status, listing: seq<Task>, p: nat)
    requires ColumnListing(rows, s, listing) && p < |listing|
    ensures var rest, rows' := listing[..p] + listing[p + 1..], rows - {listing[p].id};
      forall i :: 0 <= i < |rest| ==> rest[i].id in rows' && rows'[rest[i].id] == rest[i] && rest[i].status == s
  {
    var rest, rows' := listing[..p] + listing[p + 1..], rows - {listing[p].id};
    SpliceAt(listing, p);
    forall i | 0 <= i < |rest|
      ensures rest[i].id in rows' && rows'[rest[i].id] == rest[i] && rest[i].status == s
    {
      var j := if i < p then i else i + 1;
      assert rest[i] == listing[j] && listing[j].id != listing[p].id;
    }
  }

  lemma SpliceCovers(rows: Rows, s: Status, listing: seq<Task>, p: nat)
    requires ColumnListing(rows, s, listing) && p < |listing|
    ensures var rest, rows' := listing[..p] + listing[p + 1..], rows - {listing[p].id};
      forall x :: x in rows' && rows'[x].status == s ==> x in Ids(rest)
  {
    var rest, rows' := listing[..p] + listing[p + 1..], rows - {listing[p].id};
    SpliceAt(listing, p);
    forall x | x in rows' && rows'[x].status == s ensures x in Ids(rest) {
      assert x in Ids(listing);
      var j :| 0 <= j < |listing| && listing[j].id == x;
      if j < p { assert rest[j].id == x; } else { assert rest[j - 1].id == x; }
    }
  }

  lemma SpliceOrdered(listing: seq<Task>, p: nat)
    requires DistinctIds(listing) && ByPosition(listing) && p < |listing|
    ensures DistinctIds(listing[..p] + listing[p + 1..]) && ByPosition(listing[..p] + listing[p + 1..])
  {
    var rest := listing[..p] + listing[p + 1..];
    SpliceAt(listing, p);
    forall i, j | 0 <= i < j < |rest| ensures rest[i].id != rest[j].id && rest[i].position <= rest[j].position {
      var i', j' := if i < p then i else i + 1, if j < p then j else j + 1;
      assert rest[i] == listing[i'] && rest[j] == listing[j'] && i' < j';
    }
  }

  /** The filtered list of deleteTask is the column listing of the store without
      the deleted task, and the deleted task sat at index p of the listing. */
  lemma WithoutIsListing(rows: Rows, id: TaskId, listing: seq<Task>) returns (p: nat)
    requires id in rows
    requires ColumnListing(rows, rows[id].status, listing)
    ensures p < |listing| && listing[p].id == id
    ensures Without(listing, id) == listing[..p] + listing[p + 1..]
    ensures ColumnListing(rows - {id}, rows[id].status, Without(listing, id))
  {
    var s := rows[id].status;
    assert id in Ids(listing);
    p :| 0 <= p < |listing| && listing[p].id == id;
    WithoutAt(listing, id, p);
    SpliceStored(rows, s, listing, p);
    SpliceCovers(rows, s, listing, p);
    SpliceOrdered(listing, p);
  }

  /** The renumbering loop of deleteTask: the task at index i of the list gets
      position i; it is written back only when its position differs. */
  function Renumbered(rows: Rows, tasks: seq<Task>): (renumbered: Rows)
    ensures rows.Keys <= renumbered.Keys
    ensures forall x :: x in renumbered && x !in rows ==> x in Ids(tasks)
  {
    if |tasks| == 0 then rows
    else
      var i := |tasks| - 1;
      var r := Renumbered(rows, tasks[..i]);
      if tasks[i].position != i then r[tasks[i].id := tasks[i].(position := i)] else r
  }

  /** Renumbering only writes rows that are stored. */
  lemma {:induction false} RenumberedKeys(rows: Rows, tasks: seq<Task>)
    requires forall i :: 0 <= i < |tasks| ==> tasks[i].id in rows
    ensures Renumbered(rows, tasks).Keys == rows.Keys
  {
    if |tasks| > 0 {
      RenumberedKeys(rows, tasks[..|tasks| - 1]);
    }
  }

  /** Renumbering commutes with removing a row the list does not mention. */
  lemma {:induction false} RenumberedRemove(rows: Rows, tasks: seq<Task>, id: TaskId)
    requires forall i :: 0 <= i < |tasks| ==> tasks[i].id != id
    ensures Renumbered(rows, tasks) - {id} == Renumbered(rows - {id}, tasks)
  {
    if |tasks| > 0 {
      RenumberedRemove(rows, tasks[..|tasks| - 1], id);
    }
  }

  /** Renumbering places each listed task at its list index. */
  lemma {:induction false} RenumberedListed(rows: Rows, tasks: seq<Task>)
    requires DistinctIds(tasks)
    requires forall i :: 0 <= i < |tasks| ==> tasks[i].id in rows && rows[tasks[i].id] == tasks[i]
    ensures forall i :: 0 <= i < |tasks| ==>
      tasks[i].id in Renumbered(rows, tasks) && Renumbered(rows, tasks)[tasks[i].id] == tasks[i].(position := i)
  {
    if |tasks| > 0 {
      var last := |tasks| - 1;
      var init := tasks[..last];
      RenumberedListed(rows, init);
      RenumberedKeys(rows, init);
      RenumberedUnlisted(rows, init);
      assert forall j :: 0 <= j < last ==> init[j].id != tasks[last].id;
      forall i | 0 <= i < last
        ensures tasks[i].id in Renumbered(rows, tasks) && Renumbered(rows, tasks)[tasks[i].id] == tasks[i].(position := i)
      {
        assert tasks[i] == init[i] && tasks[i].id != tasks[last].id;
      }
    }
  }

  lemma {:induction false} RenumberedUnlisted(rows: Rows, tasks: seq<Task>)
    ensures forall id :: id in rows && id !in Ids(tasks) ==>
      id in Renumbered(rows, tasks) && Renumbered(rows, tasks)[id] == rows[id]
  {
    if |tasks| > 0 {
      var last := |tasks| - 1;
      var init := tasks[..last];
      RenumberedUnlisted(rows, init);
      forall j | 0 <= j < last ensures init[j].id in Ids(tasks) {
        assert tasks[j] == init[j];
      }
      assert tasks[last].id in Ids(tasks);
    }
  }

  /** A member of the listed column lands on its index in the listing. */
  lemma RenumberedMember(rows: Rows, s: Status, listing: seq<Task>, x: TaskId) returns (i: nat)
    requires ColumnListing(rows, s, listing)
    requires x in rows && rows[x].status == s
    ensures i < |listing| && listing[i] == rows[x]
    ensures x in Renumbered(rows, listing) && Renumbered(rows, listing)[x] == rows[x].(position := i)
  {
    RenumberedListed(rows, listing);
    assert x in Ids(listing);
    i :| 0 <= i < |listing| && listing[i].id == x;
  }

  /** A row outside the listed column is left as it is. */
  lemma RenumberedOther(rows: Rows, s: Status, listing: seq<Task>, x: TaskId)
    requires ColumnListing(rows, s, listing)
    requires x in rows && rows[x].status != s
    ensures x in Renumbered(rows, listing) && Renumbered(rows, listing)[x] == rows[x]
  {
    RenumberedUnlisted(rows, listing);
    forall i | 0 <= i < |listing| ensures listing[i].id != x {
    }
  }

  /** Renumbering a column by the index of each task in its position-ordered
      listing makes the column dense, keeps the tasks' relative order, and
      changes nothing but positions in that column. */
  lemma RenumberListing(rows: Rows, s: Status, listing: seq<Task>)
    requires ColumnListing(rows, s, listing)
    ensures Renumbered(rows, listing).Keys == rows.Keys
    ensures Dense(Renumbered(rows, listing), s)
    ensures forall x :: x in rows ==>
      Renumbered(rows, listing)[x] == rows[x].(position := Renumbered(rows, listing)[x].position)
    ensures forall x :: x in rows && rows[x].status != s ==> Renumbered(rows, listing)[x] == rows[x]
    ensures forall a, b ::
              a in rows && b in rows && rows[a].status == s && rows[b].status == s
              && rows[a].position < rows[b].position
              ==> Renumbered(rows, listing)[a].position < Renumbered(rows, listing)[b].position
  {
    var d := Renumbered(rows, listing);
    RenumberedKeys(rows, listing);
    RenumberedDense(rows, s, listing);
    forall x | x in rows ensures d[x] == rows[x].(position := d[x].position) {
      RenumberedShape(rows, s, listing, x);
    }
    forall x | x in rows && rows[x].status != s ensures d[x] == rows[x] {
      RenumberedOther(rows, s, listing, x);
    }
    forall a, b | a in rows && b in rows && rows[a].status == s && rows[b].status == s
      && rows[a].position < rows[b].position
      ensures d[a].position < d[b].position
    {
      RenumberedOrder(rows, s, listing, a, b);
    }
  }

  /** Renumbering changes at most the position of a row. */
  lemma RenumberedShape(rows: Rows, s: Status, listing: seq<Task>, x: TaskId)
    requires ColumnListing(rows, s, listing) && x in rows
    ensures x in Renumbered(rows, listing)
    ensures Renumbered(rows, listing)[x] == rows[x].(position := Renumbered(rows, listing)[x].position)
  {
    if rows[x].status == s {
      var _ := RenumberedMember(rows, s, listing, x);
    } else {
      RenumberedOther(rows, s, listing, x);
    }
  }

  /** Two tasks of the column keep their strict order. */
  lemma RenumberedOrder(rows: Rows, s: Status, listing: seq<Task>, a: TaskId, b: TaskId)
    requires ColumnListing(rows, s, listing)
    requires a in rows && b in rows && rows[a].status == s && rows[b].status == s
    requires rows[a].position < rows[b].position
    ensures a in Renumbered(rows, listing) && b in Renumbered(rows, listing)
    ensures Renumbered(rows, listing)[a].position < Renumbered(rows, listing)[b].position
  {
    var i := RenumberedMember(rows, s, listing, a);
    var j := RenumberedMember(rows, s, listing, b);
    assert ByPosition(listing);
  }

  /** Renumbering keeps every row's status. */
  lemma RenumberedStatus(rows: Rows, s: Status, listing: seq<Task>, x: TaskId)
    requires ColumnListing(rows, s, listing) && x in rows
    ensures x in Renumbered(rows, listing) && Renumbered(rows, listing)[x].status == rows[x].status
  {
    if rows[x].status == s {
      var _ := RenumberedMember(rows, s, listing, x);
    } else {
      RenumberedOther(rows, s, listing, x);
    }
  }

  lemma RenumberedDense(rows: Rows, s: Status, listing: seq<Task>)
    requires ColumnListing(rows, s, listing)
    ensures Dense(Renumbered(rows, listing), s)
  {
    var d := Renumbered(rows, listing);
    RenumberedKeys(rows, listing);
    assert Column(d, s) == Column(rows, s) by {
      forall x | x in rows ensures d[x].status == rows[x].status {
        RenumberedStatus(rows, s, listing, x);
      }
    }
    ListingLength(rows, s, listing);
    forall x | x in d && d[x].status == s ensures 0 <= d[x].position < |Column(d, s)| {
      RenumberedStatus(rows, s, listing, x);
      var _ := RenumberedMember(rows, s, listing, x);
    }
    forall a, b | a in d && b in d && a != b && d[a].status == s && d[b].status == s
      ensures d[a].position != d[b].position
    {
      RenumberedStatus(rows, s, listing, a);
      RenumberedStatus(rows, s, listing, b);
      var i := RenumberedMember(rows, s, listing, a);
      var j := RenumberedMember(rows, s, listing, b);
    }
  }

  /** The store after deleteTask, given the listing the finder returned: the
      others are renumbered while the row is still stored, then it is removed. */
  function Deleted(rows: Rows, id: TaskId, listing: seq<Task>): (deleted: Rows)
    ensures id !in deleted
    ensures rows.Keys - {id} <= deleted.Keys
  {
    Renumbered(rows, Without(listing, id)) - {id}
  }

  /** Removing the deleted row before or after renumbering the others is the same. */
  lemma DeletedIsRenumberedRest(rows: Rows, id: TaskId, listing: seq<Task>)
    ensures Deleted(rows, id, listing) == Renumbered(rows - {id}, Without(listing, id))
  {
    RenumberedRemove(rows, Without(listing, id), id);
  }

  /** What deleteTask does to the store, whatever order the finder gave tied
      positions: the row `id` is gone, the remaining tasks of its column sit at
      0..k-1 in their previous ascending order, and nothing else changes but
      those positions. */
  ghost predicate Compacted(rows: Rows, id: TaskId, d: Rows)
    requires id in rows
  {
    var s := rows[id].status;
    && d.Keys == rows.Keys - {id}
    && Dense(d, s)
    && (forall x :: x in rows && x != id ==> d[x] == rows[x].(position := d[x].position))
    && (forall x :: x in rows && x != id && rows[x].status != s ==> d[x] == rows[x])
    && (forall a, b ::
          a in rows && b in rows && a != id && b != id
          && rows[a].status == s && rows[b].status == s && rows[a].position < rows[b].position
          ==> d[a].position < d[b].position)
  }

  lemma DeleteCompacts(rows: Rows, id: TaskId, listing: seq<Task>)
    requires id in rows
    requires ColumnListing(rows, rows[id].status, listing)
    ensures Compacted(rows, id, Deleted(rows, id, listing))
  {
    var s, rows', rest := rows[id].status, rows - {id}, Without(listing, id);
    assert ColumnListing(rows', s, rest) by {
      var _ := WithoutIsListing(rows, id, listing);
    }
    var d := Renumbered(rows', rest);
    assert Deleted(rows, id, listing) == d by {
      DeletedIsRenumberedRest(rows, id, listing);
    }
    assert d.Keys == rows'.Keys by {
      RenumberedKeys(rows', rest);
    }
    assert Dense(d, s) by {
      RenumberedDense(rows', s, rest);
    }
    forall x | x in rows && x != id ensures d[x] == rows[x].(position := d[x].position) {
      RenumberedShape(rows', s, rest, x);
    }
    forall x | x in rows && x != id && rows[x].status != s ensures d[x] == rows[x] {
      RenumberedOther(rows', s, rest, x);
    }
    forall a, b | a in rows && b in rows && a != id && b != id
      && rows[a].status == s && rows[b].status == s && rows[a].position < rows[b].position
      ensures d[a].position < d[b].position
    {
      RenumberedOrder(rows', s, rest, a, b);
    }
  }

  /** On a dense column, renumbering by list index gives the same store as
      removing the task and running decrementPositionsAfter(status, position). */
  lemma DeleteIsDecrementAfter(rows: Rows, id: TaskId, listing: seq<Task>)
    requires id in rows
    requires Dense(rows, rows[id].status)
    requires ColumnListing(rows, rows[id].status, listing)
    ensures Deleted(rows, id, listing)
         == Shift(rows - {id}, rows[id].status, Above(rows[id].position), -1)
  {
    var s, p := rows[id].status, rows[id].position;
    var k := WithoutIsListing(rows, id, listing);
    assert forall i :: 0 <= i < |listing| ==> listing[i].position == i by {
      DenseListingAtIndex(rows, s, listing);
    }
    DeletedIsRenumberedRest(rows, id, listing);
    RenumberedGap(rows - {id}, s, listing, k);
  }

  /** The renumbered rest of a dense column's listing is the decrement of the
      positions after the gap. */
  lemma RenumberedGap(rows: Rows, s: Status, listing: seq<Task>, p: nat)
    requires p < |listing| && forall i :: 0 <= i < |listing| ==> listing[i].position == i
    requires ColumnListing(rows, s, listing[..p] + listing[p + 1..])
    ensures Renumbered(rows, listing[..p] + listing[p + 1..]) == Shift(rows, s, Above(p), -1)
  {
    var d, e := Renumbered(rows, listing[..p] + listing[p + 1..]), Shift(rows, s, Above(p), -1);
    RenumberedKeys(rows, listing[..p] + listing[p + 1..]);
    forall x | x in rows ensures d[x] == e[x] {
      RenumberedAfterGap(rows, s, listing, p, x);
    }
  }

  /** One row of the renumbered rest of a dense column's listing: the tasks
      before the gap keep their slot, the ones after it move down one. */
  lemma RenumberedAfterGap(rows: Rows, s: Status, listing: seq<Task>, p: nat, x: TaskId)
    requires p < |listing| && forall i :: 0 <= i < |listing| ==> listing[i].position == i
    requires ColumnListing(rows, s, listing[..p] + listing[p + 1..])
    requires x in rows
    ensures x in Renumbered(rows, listing[..p] + listing[p + 1..])
    ensures Renumbered(rows, listing[..p] + listing[p + 1..])[x]
         == if rows[x].status == s && rows[x].position > p then rows[x].(position := rows[x].position - 1) else rows[x]
  {
    var rest := listing[..p] + listing[p + 1..];
    if rows[x].status == s {
      var i := RenumberedMember(rows, s, rest, x);
      SpliceAt(listing, p);
      if i < p {
        assert rest[i] == listing[i];
      } else {
        assert rest[i] == listing[i + 1];
      }
    } else {
      RenumberedOther(rows, s, rest, x);
    }
  }

  /** Removing a row of another column leaves column `s` as it was. */
  lemma RemoveOtherKeepsDense(rows: Rows, id: TaskId, s: Status)
    requires id in rows && rows[id].status != s && Dense(rows, s)
    ensures Dense(rows - {id}, s)
  {
    assert Column(rows - {id}, s) == Column(rows, s);
  }

  /** deleteTask keeps every column dense. */
  lemma DeletePreservesDensity(rows: Rows, id: TaskId, listing: seq<Task>)
    requires id in rows
    requires AllDense(rows)
    requires ColumnListing(rows, rows[id].status, listing)
    ensures AllDense(Deleted(rows, id, listing))
  {
    var s0, rows', rest := rows[id].status, rows - {id}, Without(listing, id);
    assert ColumnListing(rows', s0, rest) by {
      var _ := WithoutIsListing(rows, id, listing);
    }
    DeletedIsRenumberedRest(rows, id, listing);
    var d := Renumbered(rows', rest);
    RenumberedKeys(rows', rest);
    forall s ensures Dense(d, s) {
      if s == s0 {
        RenumberedDense(rows', s0, rest);
      } else {
        assert Dense(rows, s);
        RemoveOtherKeepsDense(rows, id, s);
        forall x | x in rows' ensures (d[x].status == s <==> rows'[x].status == s) {
          RenumberedStatus(rows', s0, rest, x);
        }
        forall x | x in rows' && rows'[x].status == s ensures d[x].position == rows'[x].position {
          RenumberedOther(rows', s0, rest, x);
        }
        DenseTransfer(rows', d, s);
      }
    }
  }

  // ---------------------------------------------------------------------------
  // Worked examples

  const Blank := Payload("", "", "", Medium)

  /** T1(0), T2(1), T3(2) in TODO; moving T1 to 2 gives T2(0), T3(1), T1(2). */
  lemma MoveFirstToLast()
    ensures
      var rows := map[1 := Task(1, Todo, 0, Blank), 2 := Task(2, Todo, 1, Blank), 3 := Task(3, Todo, 2, Blank)];
      Moved(rows, rows[1], Todo, 2)
        == map[1 := Task(1, Todo, 2, Blank), 2 := Task(2, Todo, 0, Blank), 3 := Task(3, Todo, 1, Blank)]
  {
    var rows := map[1 := Task(1, Todo, 0, Blank), 2 := Task(2, Todo, 1, Blank), 3 := Task(3, Todo, 2, Blank)];
    MovedTarget(rows, rows[1], Todo, 2);
    MovedWithinAt(rows, rows[1], 2, 2);
    MovedWithinAt(rows, rows[1], 2, 3);
  }

  /** T1(0), T2(1) in TODO, DONE empty; moving T1 to DONE at 0 gives T2(0) in
      TODO and T1(0) in DONE. */
  lemma MoveToEmptyColumn()
    ensures
      var rows := map[1 := Task(1, Todo, 0, Blank), 2 := Task(2, Todo, 1, Blank)];
      Moved(rows, rows[1], Done, 0)
        == map[1 := Task(1, Done, 0, Blank), 2 := Task(2, Todo, 0, Blank)]
  {
    var rows := map[1 := Task(1, Todo, 0, Blank), 2 := Task(2, Todo, 1, Blank)];
    MovedTarget(rows, rows[1], Done, 0);
    MovedAcrossAt(rows, rows[1], Done, 0, 2);
  }

  /** T1(0), T2(1), T3(2) in TODO; deleting T2 gives T1(0), T3(1). */
  lemma DeleteMiddle()
    ensures
      var rows := map[1 := Task(1, Todo, 0, Blank), 2 := Task(2, Todo, 1, Blank), 3 := Task(3, Todo, 2, Blank)];
      Deleted(rows, 2, [rows[1], rows[2], rows[3]])
        == map[1 := Task(1, Todo, 0, Blank), 3 := Task(3, Todo, 1, Blank)]
  {
    var rows := map[1 := Task(1, Todo, 0, Blank), 2 := Task(2, Todo, 1, Blank), 3 := Task(3, Todo, 2, Blank)];
    var listing := [rows[1], rows[2], rows[3]];
    WithoutAt(listing, 2, 1);
    assert Without(listing, 2) == [rows[1], rows[3]];
    RenumberedKeys(rows, [rows[1], rows[3]]);
    RenumberedListed(rows, [rows[1], rows[3]]);
    RenumberedUnlisted(rows, [rows[1], rows[3]]);
  }
}
