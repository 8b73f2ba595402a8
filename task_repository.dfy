/** The task table and the repository calls the service makes on it: the two
    derived finders, findById, save, deleteById and the four bulk position
    UPDATEs. The table is the map `rows`. Every call that may write (save,
    deleteById, a bulk UPDATE) appends to a ghost log, so callers can say which
    writing calls an operation makes; the reads are not logged. */
module Repository {
  import opened Entity
  import opened Columns

  datatype Option<T> = None | Some(value: T)

  /** A repository call that may write: a save of a new entity, a save of a
      loaded one (which the persistence layer may turn into no UPDATE at all
      when no field changed), one bulk UPDATE, or a deleteById. */
  datatype Statement =
    | Insert(id: TaskId)
    | Write(id: TaskId)
    | BulkShift(status: Status, range: Range, delta: int)
    | Remove(id: TaskId)

  /** The order `ORDER BY status ASC, position ASC`, with status compared as the
      stored name. */
  predicate KeyLe(a: Task, b: Task)
  {
    Rank(a.status) < Rank(b.status) || (Rank(a.status) == Rank(b.status) && a.position <= b.position)
  }

  predicate SortedByKey(tasks: seq<Task>)
  {
    forall i, j :: 0 <= i < j < |tasks| ==> KeyLe(tasks[i], tasks[j])
  }

  /** Index facts of a list with `t` inserted at index k. */
  lemma InsertedAt(tasks: seq<Task>, k: nat, t: Task)
    requires k <= |tasks|
    ensures |tasks[..k] + [t] + tasks[k..]| == |tasks| + 1
    ensures forall i :: 0 <= i < |tasks| + 1 ==>
      (tasks[..k] + [t] + tasks[k..])[i] == if i < k then tasks[i] else if i == k then t else tasks[i - 1]
    ensures Ids(tasks[..k] + [t] + tasks[k..]) == Ids(tasks) + {t.id}
  {
    var r := tasks[..k] + [t] + tasks[k..];
    forall x | x in Ids(r) ensures x in Ids(tasks) + {t.id} {
      var i :| 0 <= i < |r| && r[i].id == x;
      if i < k { assert tasks[i].id == x; } else if i > k { assert tasks[i - 1].id == x; }
    }
    forall x | x in Ids(tasks) ensures x in Ids(r) {
      var i :| 0 <= i < |tasks| && tasks[i].id == x;
      if i < k { assert r[i].id == x; } else { assert r[i + 1].id == x; }
    }
    assert r[k].id == t.id;
  }

  /** Inserting `t` after every entry whose key is at most t's keeps the list sorted. */
  method InsertSorted(tasks: seq<Task>, t: Task) returns (r: seq<Task>, k: nat)
    requires SortedByKey(tasks)
    ensures k <= |tasks| && r == tasks[..k] + [t] + tasks[k..]
    ensures SortedByKey(r)
  {
    k := 0;
    while k < |tasks| && KeyLe(tasks[k], t)
      invariant k <= |tasks|
      invariant forall i :: 0 <= i < k ==> KeyLe(tasks[i], t)
    {
      k := k + 1;
    }
    r := tasks[..k] + [t] + tasks[k..];
    InsertedAt(tasks, k, t);
    forall j | k < j < |r| ensures KeyLe(t, r[j]) {
      assert KeyLe(tasks[k], tasks[j - 1]) || k == j - 1;
    }
  }

  /** Scanning the table for column `s` (or for all rows) and sorting what it
      finds by status name, then position: the work the database does for a
      derived finder. */
  method ScanSorted(rows: Rows, all: bool, s: Status) returns (tasks: seq<Task>)
    requires WellKeyed(rows)
    ensures Listing(rows, all, s, tasks) && SortedByKey(tasks)
  {
    tasks := [];
    var todo := rows.Keys;
    while todo != {}
      invariant todo <= rows.Keys
      invariant forall i :: 0 <= i < |tasks| ==>
        tasks[i].id in rows && tasks[i].id !in todo && rows[tasks[i].id] == tasks[i] && (all || tasks[i].status == s)
      invariant forall id :: id in rows && id !in todo && (all || rows[id].status == s) ==> id in Ids(tasks)
      invariant DistinctIds(tasks) && SortedByKey(tasks)
      decreases todo
    {
      var id :| id in todo;
      todo := todo - {id};
      var t := rows[id];
      if all || t.status == s {
        var r, k := InsertSorted(tasks, t);
        InsertedAt(tasks, k, t);
        assert t.id == id && id !in Ids(tasks);
        tasks := r;
      }
    }
  }

  /** Within one status the key order is the position order. */
  lemma SameStatusByPosition(tasks: seq<Task>, s: Status)
    requires SortedByKey(tasks)
    requires forall i :: 0 <= i < |tasks| ==> tasks[i].status == s
    ensures ByPosition(tasks)
  {
    forall i, j | 0 <= i < j < |tasks| ensures tasks[i].position <= tasks[j].position {
      assert KeyLe(tasks[i], tasks[j]);
    }
  }

  /** The key order compares status by its stored name, not by declaration order. */
  lemma KeyFollowsName(a: Task, b: Task)
    ensures KeyLe(a, b) <==>
      StringLess(Name(a.status), Name(b.status)) || (a.status == b.status && a.position <= b.position)
  {
    RankFollowsName(a.status, b.status);
  }

  class TaskRepository {
    var rows: Rows
    /** The next value of the id sequence. */
    var nextId: TaskId
    ghost var log: seq<Statement>

    ghost predicate Valid()
      reads this
    {
      WellKeyed(rows) && forall id :: id in rows ==> id < nextId
    }

    /** An empty table; the id sequence starts at 1. */
    constructor ()
      ensures Valid() && rows == map[] && log == []
    {
      rows := map[];
      nextId := 1;
      log := [];
    }

    /** findById: the stored row, or nothing. */
    method FindById(id: TaskId) returns (r: Option<Task>)
      requires Valid()
      ensures r.Some? <==> id in rows
      ensures r.Some? ==> r.value == rows[id] && r.value.id == id
    {
      if id in rows {
        r := Some(rows[id]);
      } else {
        r := None;
      }
    }

    /** findByStatusOrderByPositionAsc: every row of column `s`, once, in
        ascending position. Rows with equal positions come in an order the
        caller must not rely on. */
    method FindByStatusOrderByPositionAsc(s: Status) returns (tasks: seq<Task>)
      requires Valid()
      ensures ColumnListing(rows, s, tasks)
      ensures |tasks| == |Column(rows, s)|
    {
      tasks := ScanSorted(rows, false, s);
      SameStatusByPosition(tasks, s);
      ListingLength(rows, s, tasks);
    }

    /** findAllByOrderByStatusAscPositionAsc: every row, once, sorted by the
        status name (DONE, IN_PROGRESS, TODO) and then by position. */
    method FindAllByOrderByStatusAscPositionAsc() returns (tasks: seq<Task>)
      requires Valid()
      ensures forall i :: 0 <= i < |tasks| ==> tasks[i].id in rows && rows[tasks[i].id] == tasks[i]
      ensures forall id :: id in rows ==> id in Ids(tasks)
      ensures DistinctIds(tasks)
      ensures forall i, j :: 0 <= i < j < |tasks| ==>
        || StringLess(Name(tasks[i].status), Name(tasks[j].status))
        || (tasks[i].status == tasks[j].status && tasks[i].position <= tasks[j].position)
    {
      tasks := ScanSorted(rows, true, Todo);
      forall i, j | 0 <= i < j < |tasks|
        ensures || StringLess(Name(tasks[i].status), Name(tasks[j].status))
                || (tasks[i].status == tasks[j].status && tasks[i].position <= tasks[j].position)
      {
        KeyFollowsName(tasks[i], tasks[j]);
      }
    }

    /** save of an entity that is already stored: the row is replaced by the
        entity as the caller holds it. */
    method Save(t: Task)
      requires Valid() && t.id in rows
      modifies this
      ensures Valid()
      ensures rows == old(rows)[t.id := t] && nextId == old(nextId)
      ensures log == old(log) + [Write(t.id)]
    {
      rows := rows[t.id := t];
      log := log + [Write(t.id)];
    }

    /** save of a new entity: the id sequence supplies a fresh id. */
    method SaveNew(status: Status, position: int, payload: Payload) returns (t: Task)
      requires Valid()
      modifies this
      ensures Valid()
      ensures t == Task(old(nextId), status, position, payload) && t.id !in old(rows)
      ensures nextId == old(nextId) + 1
      ensures rows == old(rows)[t.id := t]
      ensures log == old(log) + [Insert(t.id)]
    {
      t := Task(nextId, status, position, payload);
      rows := rows[t.id := t];
      nextId := nextId + 1;
      log := log + [Insert(t.id)];
    }

    /** deleteById: the row goes; a missing id is ignored. */
    method DeleteById(id: TaskId)
      requires Valid()
      modifies this
      ensures Valid()
      ensures rows == old(rows) - {id} && nextId == old(nextId)
      ensures log == old(log) + [Remove(id)]
    {
      rows := rows - {id};
      log := log + [Remove(id)];
    }

    /** One bulk UPDATE: the rows of column `status` the range selects move by
        `delta`; no other row, and no other field, changes. */
    method ShiftPositions(status: Status, range: Range, delta: int)
      requires Valid()
      modifies this
      ensures Valid()
      ensures rows == Shift(old(rows), status, range, delta) && nextId == old(nextId)
      ensures log == old(log) + [BulkShift(status, range, delta)]
    {
      rows := Shift(rows, status, range, delta);
      log := log + [BulkShift(status, range, delta)];
    }

    /** decrementPositionsAfter: `position > p` in column `status` moves up one. */
    method DecrementPositionsAfter(status: Status, position: int)
      requires Valid()
      modifies this
      ensures Valid()
      ensures rows == Shift(old(rows), status, Above(position), -1) && nextId == old(nextId)
      ensures log == old(log) + [BulkShift(status, Above(position), -1)]
    {
      ShiftPositions(status, Above(position), -1);
    }

    /** decrementPositionsBetween: `start <= position <= end` moves up one. */
    method DecrementPositionsBetween(status: Status, start: int, end: int)
      requires Valid()
      modifies this
      ensures Valid()
      ensures rows == Shift(old(rows), status, Between(start, end), -1) && nextId == old(nextId)
      ensures log == old(log) + [BulkShift(status, Between(start, end), -1)]
    {
      ShiftPositions(status, Between(start, end), -1);
    }

    /** incrementPositionsFrom: `position >= p` in column `status` moves down one. */
    method IncrementPositionsFrom(status: Status, position: int)
      requires Valid()
      modifies this
      ensures Valid()
      ensures rows == Shift(old(rows), status, AtLeast(position), 1) && nextId == old(nextId)
      ensures log == old(log) + [BulkShift(status, AtLeast(position), 1)]
    {
      ShiftPositions(status, AtLeast(position), 1);
    }

    /** incrementPositionsBetween: `start <= position <= end` moves down one. */
    method IncrementPositionsBetween(status: Status, start: int, end: int)
      requires Valid()
      modifies this
      ensures Valid()
      ensures rows == Shift(old(rows), status, Between(start, end), 1) && nextId == old(nextId)
      ensures log == old(log) + [BulkShift(status, Between(start, end), 1)]
    {
      ShiftPositions(status, Between(start, end), 1);
    }
  }
}
