/** The task service: listing, creating, editing, moving and deleting tasks,
    each operation one transaction against the repository. Every operation that
    names a task by id fails with NotFound, having issued no write, when no such
    task is stored. */
module Service {
  import opened Entity
  import opened Columns
  import opened Repository

  datatype Result<T> = Ok(value: T) | NotFound(id: TaskId)

  /** The fields of a create or edit request the service reads. The position a
      creator sends is overwritten. */
  datatype TaskForm = TaskForm(payload: Payload, status: Status, position: int)

  /** The save calls that write back the renumbered tasks: one per task whose
      position differs from its index. */
  function RenumberWrites(tasks: seq<Task>): (writes: seq<Statement>)
    ensures |writes| <= |tasks|
    ensures forall k :: 0 <= k < |writes| ==> writes[k].Write?
  {
    if |tasks| == 0 then []
    else
      var i := |tasks| - 1;
      RenumberWrites(tasks[..i]) + (if tasks[i].position != i then [Write(tasks[i].id)] else [])
  }

  /** The ids of the listed tasks that are not at their index. */
  function Misplaced(tasks: seq<Task>): set<TaskId>
  {
    set i | 0 <= i < |tasks| && tasks[i].position != i :: tasks[i].id
  }

  /** The renumbering writes are exactly one write per misplaced task. */
  lemma {:induction false} RenumberWritesMisplaced(tasks: seq<Task>)
    ensures forall k :: 0 <= k < |RenumberWrites(tasks)| ==>
      RenumberWrites(tasks)[k].Write? && RenumberWrites(tasks)[k].id in Misplaced(tasks)
    ensures forall x :: x in Misplaced(tasks) ==> Write(x) in RenumberWrites(tasks)
  {
    if |tasks| > 0 {
      var n := |tasks| - 1;
      var init := tasks[..n];
      RenumberWritesMisplaced(init);
      assert forall i :: 0 <= i < n ==> tasks[i] == init[i];
      assert Misplaced(tasks) == Misplaced(init) + (if tasks[n].position != n then {tasks[n].id} else {});
    }
  }

  /** A write log entry by entry: every entry writes a row whose position
      changed between `rows0` and `rows`, and every such row is written. */
  ghost predicate WritesMovedRows(rows0: Rows, rows: Rows, w: seq<Statement>)
  {
    && (forall k :: 0 <= k < |w| ==>
          w[k].Write? && w[k].id in rows0 && w[k].id in rows && rows[w[k].id].position != rows0[w[k].id].position)
    && (forall x :: x in rows0 && x in rows && rows[x].position != rows0[x].position ==> Write(x) in w)
  }

  /** Renumbering a column listing writes exactly the rows whose position it changes. */
  lemma RenumberWritesAreChanges(rows: Rows, s: Status, tasks: seq<Task>)
    requires ColumnListing(rows, s, tasks)
    ensures WritesMovedRows(rows, Renumbered(rows, tasks), RenumberWrites(tasks))
  {
    RenumberWritesMisplaced(tasks);
    RenumberedListed(rows, tasks);
    RenumberedUnlisted(rows, tasks);
    var d := Renumbered(rows, tasks);
    forall x | x in Misplaced(tasks) ensures x in rows && d[x].position != rows[x].position {
      var i :| 0 <= i < |tasks| && tasks[i].position != i && tasks[i].id == x;
    }
    forall x | x in rows && x in d && d[x].position != rows[x].position ensures x in Misplaced(tasks) {
      if rows[x].status == s {
        var i := RenumberedMember(rows, s, tasks, x);
      } else {
        RenumberedOther(rows, s, tasks, x);
      }
    }
  }

  /** What a successful deleteTask promises, between the store and log before
      (`rows0`, `log0`) and after (`rows`, `log`): the column is compacted; on
      a dense column the result is decrementPositionsAfter(status, position)
      plus the removal; density of every column is kept; and the logged calls
      are saves of exactly the rows whose position changed, followed by the
      deleteById of the row. */
  ghost predicate DeleteOutcome(rows0: Rows, log0: seq<Statement>, id: TaskId, rows: Rows, log: seq<Statement>)
    requires id in rows0
  {
    var s, p := rows0[id].status, rows0[id].position;
    && Compacted(rows0, id, rows)
    && (Dense(rows0, s) ==> rows == Shift(rows0 - {id}, s, Above(p), -1))
    && (AllDense(rows0) ==> AllDense(rows))
    && |log0| < |log| && log[..|log0|] == log0 && log[|log| - 1] == Remove(id)
    && WritesMovedRows(rows0, rows, log[|log0|..|log| - 1])
  }

  /** The store and log deleteTask leaves, given the listing the finder
      returned, meet its promise. */
  lemma DeleteFacts(rows: Rows, log0: seq<Statement>, id: TaskId, listing: seq<Task>)
    requires id in rows
    requires ColumnListing(rows, rows[id].status, listing)
    ensures DeleteOutcome(rows, log0, id, Deleted(rows, id, listing),
                          log0 + RenumberWrites(Without(listing, id)) + [Remove(id)])
  {
    var d, s, rest := Deleted(rows, id, listing), rows[id].status, Without(listing, id);
    assert Compacted(rows, id, d) by {
      DeleteCompacts(rows, id, listing);
    }
    assert Dense(rows, s) ==> d == Shift(rows - {id}, s, Above(rows[id].position), -1) by {
      if Dense(rows, s) {
        DeleteIsDecrementAfter(rows, id, listing);
      }
    }
    assert AllDense(rows) ==> AllDense(d) by {
      if AllDense(rows) {
        DeletePreservesDensity(rows, id, listing);
      }
    }
    assert WritesMovedRows(rows, d, RenumberWrites(rest)) by {
      var _ := WithoutIsListing(rows, id, listing);
      DeletedIsRenumberedRest(rows, id, listing);
      RenumberWritesAreChanges(rows - {id}, s, rest);
    }
    LogParts(log0, RenumberWrites(rest), Remove(id));
  }

  /** One step of the renumbering loop: the task at index i is written back
      at position i when it is elsewhere. */
  lemma RenumberStep(rows: Rows, tasks: seq<Task>, i: nat)
    requires i < |tasks|
    ensures Renumbered(rows, tasks[..i + 1]) ==
      if tasks[i].position != i then Renumbered(rows, tasks[..i])[tasks[i].id := tasks[i].(position := i)]
      else Renumbered(rows, tasks[..i])
    ensures RenumberWrites(tasks[..i + 1]) ==
      RenumberWrites(tasks[..i]) + if tasks[i].position != i then [Write(tasks[i].id)] else []
  {
    assert tasks[..i + 1][..i] == tasks[..i];
  }

  /** A log extended by some writes and one last statement. */
  lemma LogParts(log: seq<Statement>, writes: seq<Statement>, last: Statement)
    ensures (log + writes + [last])[..|log|] == log
    ensures (log + writes + [last])[|log|..|log| + |writes|] == writes
  {
  }

  /** The filtered list holds rows as they are stored. */
  lemma RestStored(rows: Rows, id: TaskId, listing: seq<Task>)
    requires id in rows
    requires ColumnListing(rows, rows[id].status, listing)
    ensures forall k :: 0 <= k < |Without(listing, id)| ==>
      Without(listing, id)[k].id in rows && rows[Without(listing, id)[k].id] == Without(listing, id)[k]
  {
    var _ := WithoutIsListing(rows, id, listing);
    var rest := Without(listing, id);
    forall k | 0 <= k < |rest| ensures rest[k].id in rows && rows[rest[k].id] == rest[k] {
      assert rest[k].id in rows - {id};
    }
  }

  class TaskService {
    const repository: TaskRepository

    ghost predicate Valid()
      reads this, repository
    {
      repository.Valid()
    }

    constructor (repository: TaskRepository)
      requires repository.Valid()
      ensures Valid() && this.repository == repository
    {
      this.repository := repository;
    }

    /** getAllTasks: every task once, grouped by status name, by position within. */
    method GetAllTasks() returns (tasks: seq<Task>)
      requires Valid()
      ensures forall i :: 0 <= i < |tasks| ==>
        tasks[i].id in repository.rows && repository.rows[tasks[i].id] == tasks[i]
      ensures forall id :: id in repository.rows ==> id in Ids(tasks)
      ensures |tasks| == |repository.rows|
      ensures forall i, j :: 0 <= i < j < |tasks| ==>
        || StringLess(Name(tasks[i].status), Name(tasks[j].status))
        || (tasks[i].status == tasks[j].status && tasks[i].position <= tasks[j].position)
    {
      tasks := repository.FindAllByOrderByStatusAscPositionAsc();
      DistinctIdsCount(tasks);
      assert Ids(tasks) == repository.rows.Keys;
    }

    /** getTasksByStatus: the column in position order; on a dense column the
        task at index i has position i. */
    method GetTasksByStatus(status: Status) returns (tasks: seq<Task>)
      requires Valid()
      ensures ColumnListing(repository.rows, status, tasks)
      ensures Dense(repository.rows, status) ==> forall i :: 0 <= i < |tasks| ==> tasks[i].position == i
    {
      tasks := repository.FindByStatusOrderByPositionAsc(status);
      if Dense(repository.rows, status) {
        DenseListingAtIndex(repository.rows, status, tasks);
      }
    }

    /** createTask: the new task goes to the end of its column, whatever
        position the request carried. */
    method CreateTask(form: TaskForm) returns (t: Task)
      requires Valid()
      modifies repository
      ensures Valid()
      ensures repository.nextId == old(repository.nextId) + 1
      ensures t.id !in old(repository.rows)
      ensures t.status == form.status && t.payload == form.payload
      ensures t.position == |Column(old(repository.rows), form.status)|
      ensures repository.rows == old(repository.rows)[t.id := t]
      ensures repository.log == old(repository.log) + [Insert(t.id)]
      ensures AllDense(old(repository.rows)) ==> AllDense(repository.rows)
    {
      ghost var rows0 := repository.rows;
      var tasksInSameStatus := repository.FindByStatusOrderByPositionAsc(form.status);
      var newPosition := if |tasksInSameStatus| == 0 then 0 else |tasksInSameStatus|;
      t := repository.SaveNew(form.status, newPosition, form.payload);
      if AllDense(rows0) {
        AppendPreservesDensity(rows0, t);
      }
    }

    /** updateTask: title, description, assignee and priority are replaced;
        status and position are kept. */
    method UpdateTask(id: TaskId, form: TaskForm) returns (r: Result<Task>)
      requires Valid()
      modifies repository
      ensures Valid()
      ensures repository.nextId == old(repository.nextId)
      ensures r.Ok? <==> id in old(repository.rows)
      ensures r.NotFound? ==> r.id == id && unchanged(repository)
      ensures r.Ok? ==>
        && r.value == old(repository.rows)[id].(payload := form.payload)
        && repository.rows == old(repository.rows)[id := r.value]
        && repository.log == old(repository.log) + [Write(id)]
      ensures forall s :: Column(repository.rows, s) == Column(old(repository.rows), s)
      ensures AllDense(old(repository.rows)) ==> AllDense(repository.rows)
    {
      var found := repository.FindById(id);
      if found.None? {
        return NotFound(id);
      }
      var task := found.value.(payload := form.payload);
      PayloadEditKeepsColumns(repository.rows, id, form.payload);
      repository.Save(task);
      r := Ok(task);
    }

    /** moveTask: a no-op when the target is where the task already is,
        otherwise the same-column or the cross-column move. It keeps every
        column dense when the target is in range. The target is not clamped: a
        target at or past the column's size in a same-column move, or past the
        target column's size in a cross-column move, leaves a gap. */
    method MoveTask(taskId: TaskId, newStatus: Status, newPosition: int) returns (r: Result<()>)
      requires Valid()
      modifies repository
      ensures Valid()
      ensures repository.nextId == old(repository.nextId)
      ensures r.Ok? <==> taskId in old(repository.rows)
      ensures r.NotFound? ==> r.id == taskId && unchanged(repository)
      ensures r.Ok? ==>
        repository.rows == Moved(old(repository.rows), old(repository.rows)[taskId], newStatus, newPosition)
      ensures r.Ok? ==>
        var t := old(repository.rows)[taskId];
        repository.log == old(repository.log) +
          if t.status == newStatus && t.position == newPosition then []
          else if t.status == newStatus && t.position < newPosition
          then [BulkShift(t.status, Between(t.position + 1, newPosition), -1), Write(taskId)]
          else if t.status == newStatus
          then [BulkShift(t.status, Between(newPosition, t.position - 1), 1), Write(taskId)]
          else [BulkShift(t.status, Above(t.position), -1), BulkShift(newStatus, AtLeast(newPosition), 1), Write(taskId)]
      ensures r.Ok? && AllDense(old(repository.rows))
        && InRange(old(repository.rows), old(repository.rows)[taskId], newStatus, newPosition)
        ==> AllDense(repository.rows)
      ensures r.Ok? && 0 <= newPosition
        && !InRange(old(repository.rows), old(repository.rows)[taskId], newStatus, newPosition)
        ==> !Dense(repository.rows, newStatus)
    {
      var found := repository.FindById(taskId);
      if found.None? {
        return NotFound(taskId);
      }
      var taskToMove := found.value;
      ghost var rows0 := repository.rows;
      if AllDense(rows0) && InRange(rows0, taskToMove, newStatus, newPosition) {
        MovePreservesDensity(rows0, taskToMove, newStatus, newPosition);
      }
      if 0 <= newPosition && !InRange(rows0, taskToMove, newStatus, newPosition) {
        OutOfRangeMoveLeavesGap(rows0, taskToMove, newStatus, newPosition);
      }
      r := Ok(());
      var oldStatus := taskToMove.status;
      var oldPosition := taskToMove.position;
      if oldStatus == newStatus && oldPosition == newPosition {
        return;
      }
      if oldStatus == newStatus {
        MoveWithinSameColumn(taskToMove, oldPosition, newPosition);
        return;
      }
      MoveToDifferentColumn(taskToMove, oldStatus, newStatus, oldPosition, newPosition);
    }

    /** The same-column move: the tasks between the two slots shift one step
        towards the old slot, then the task is written at the new one. */
    method MoveWithinSameColumn(task: Task, oldPos: int, newPos: int)
      requires Valid() && task.id in repository.rows && repository.rows[task.id] == task
      requires oldPos == task.position && oldPos != newPos
      modifies repository
      ensures Valid()
      ensures repository.nextId == old(repository.nextId)
      ensures repository.rows == MovedWithin(old(repository.rows), task, newPos)
      ensures repository.log == old(repository.log) +
        if oldPos < newPos then [BulkShift(task.status, Between(oldPos + 1, newPos), -1), Write(task.id)]
        else [BulkShift(task.status, Between(newPos, oldPos - 1), 1), Write(task.id)]
    {
      if oldPos < newPos {
        repository.DecrementPositionsBetween(task.status, oldPos + 1, newPos);
      } else {
        repository.IncrementPositionsBetween(task.status, newPos, oldPos - 1);
      }
      var moved := task.(position := newPos);
      repository.Save(moved);
    }

    /** The cross-column move: close the gap in the old column, open the slot in
        the new one, then write the task with its new status and position. */
    method MoveToDifferentColumn(task: Task, oldStatus: Status, newStatus: Status, oldPosition: int, newPosition: int)
      requires Valid() && task.id in repository.rows && repository.rows[task.id] == task
      requires oldStatus == task.status && oldPosition == task.position && oldStatus != newStatus
      modifies repository
      ensures Valid()
      ensures repository.nextId == old(repository.nextId)
      ensures repository.rows == MovedAcross(old(repository.rows), task, newStatus, newPosition)
      ensures repository.log == old(repository.log) +
        [BulkShift(oldStatus, Above(oldPosition), -1), BulkShift(newStatus, AtLeast(newPosition), 1), Write(task.id)]
    {
      repository.DecrementPositionsAfter(oldStatus, oldPosition);
      repository.IncrementPositionsFrom(newStatus, newPosition);
      var moved := task.(status := newStatus, position := newPosition);
      repository.Save(moved);
    }

    /** The renumbering loop of deleteTask: the task at index i of the list is
        saved with position i when it is elsewhere. */
    method RenumberAll(filteredTasks: seq<Task>)
      requires Valid()
      requires forall k :: 0 <= k < |filteredTasks| ==> filteredTasks[k].id in repository.rows
      modifies repository
      ensures Valid()
      ensures repository.nextId == old(repository.nextId)
      ensures repository.rows == Renumbered(old(repository.rows), filteredTasks)
      ensures repository.log == old(repository.log) + RenumberWrites(filteredTasks)
    {
      ghost var rows0, log0 := repository.rows, repository.log;
      for i := 0 to |filteredTasks|
        invariant repository.Valid() && repository.nextId == old(repository.nextId)
        invariant repository.rows == Renumbered(rows0, filteredTasks[..i])
        invariant repository.log == log0 + RenumberWrites(filteredTasks[..i])
      {
        RenumberStep(rows0, filteredTasks, i);
        RenumberedKeys(rows0, filteredTasks[..i]);
        var t := filteredTasks[i];
        if t.position != i {
          t := t.(position := i);
          repository.Save(t);
        }
      }
      assert filteredTasks[..|filteredTasks|] == filteredTasks;
    }

    /** deleteTask: the other tasks of the column are renumbered 0..k-1 in
        their listed order (only those whose position changes are written), then
        the row is removed. On a dense column this is exactly
        decrementPositionsAfter(status, position) plus the removal. */
    method DeleteTask(id: TaskId) returns (r: Result<()>)
      requires Valid()
      modifies repository
      ensures Valid()
      ensures repository.nextId == old(repository.nextId)
      ensures r.Ok? <==> id in old(repository.rows)
      ensures r.NotFound? ==> r.id == id && unchanged(repository)
      ensures r.Ok? ==>
        DeleteOutcome(old(repository.rows), old(repository.log), id, repository.rows, repository.log)
    {
      var found := repository.FindById(id);
      if found.None? {
        return NotFound(id);
      }
      var task := found.value;
      ghost var rows0, log0 := repository.rows, repository.log;
      var tasksInSameStatus := repository.FindByStatusOrderByPositionAsc(task.status);
      var filteredTasks: seq<Task> := [];
      for i := 0 to |tasksInSameStatus|
        invariant filteredTasks == Without(tasksInSameStatus[..i], id)
      {
        assert tasksInSameStatus[..i + 1][..i] == tasksInSameStatus[..i];
        if tasksInSameStatus[i].id != id {
          filteredTasks := filteredTasks + [tasksInSameStatus[i]];
        }
      }
      assert tasksInSameStatus[..|tasksInSameStatus|] == tasksInSameStatus;
      RestStored(rows0, id, tasksInSameStatus);
      RenumberAll(filteredTasks);
      repository.DeleteById(id);
      r := Ok(());
      DeleteFacts(rows0, log0, id, tasksInSameStatus);
    }
  }
}
