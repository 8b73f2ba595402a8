# Kanban task positions in Dafny

This project models the backend core of a Kanban board: the task service and the
task repository. Each task lives in one of three status columns (TODO,
IN_PROGRESS, DONE) and has an integer `position` within its column. The service
lists, creates, edits, moves (drag and drop) and deletes tasks. It keeps the
positions of each column in order with four bulk JPQL `UPDATE` statements and
with per-row saves.

The model has four modules:

- `Entity` (`entity.dfy`): the task row, the status enum, and the order of the
  status column. The database stores the status as its NAME, so
  `ORDER BY status` sorts DONE < IN_PROGRESS < TODO, not in declaration order.
- `Columns` (`columns.dfy`): the position algebra on a store `map<TaskId, Task>`:
  - `Shift` is one bulk UPDATE;
  - `Moved` is the whole effect of a move;
  - `Renumbered` and `Deleted` are the renumbering done by delete;
  - `Dense` says a column's positions are exactly 0..n-1.

  The module's lemmas cover each operation's effect row by row, when density
  is preserved, when a gap appears, and the relation between the delete
  renumbering and `decrementPositionsAfter`.
- `Repository` (`task_repository.dfy`): the class `TaskRepository`. Its table
  is a `map` field and its id sequence a counter. A ghost log records every
  call that may write: `save`, `deleteById` and the four bulk UPDATEs. A
  `save` is logged as a call; the persistence layer may issue no UPDATE for it
  when no field changed. The reads (`findById` and the two finders) are not
  logged. The two derived finders are modelled as a scan followed
  by an insertion sort on (status name, position).
- `Service` (`task_service.dfy`): the class `TaskService`. Each public
  operation is one method. Where the Java code loops, the method loops.

A successful operation is stated against the pure functions of `Columns`. An
operation on a missing id returns `NotFound`, which stands for
`TaskNotFoundException`, and leaves the repository unchanged.

Two behaviours of the code worth knowing; the model follows the code:

- `moveTask` (`TaskService.java`) does not clamp the target position. The
  request validator only checks `position >= 0`. A target at or past the
  column's size in a same-column move, or past the target column's size in a
  cross-column move, leaves a gap (`Columns.OutOfRangeMoveLeavesGap`). A
  cross-column target equal to the target column's size is the append slot and
  keeps the column dense. Density is kept for every in-range target
  (`Columns.MovePreservesDensity`).
- `deleteTask` (`TaskService.java`) does not call `decrementPositionsAfter`. It renumbers the rest
  of the column by list index and saves the rows whose position changed. On a
  dense column this is proved to equal `decrementPositionsAfter` plus the
  removal (`Columns.DeleteIsDecrementAfter`). On a column with gaps it also
  closes the gaps (`Columns.DeleteCompacts`).

A bulk UPDATE is followed by `save` of the entity loaded before it. The model
writes that loaded record with its new fields. `Columns.MovingRowNotShifted`
shows that the bulk statements never select the moving row, so the stale copy
loses nothing.

## Model

| member | source | states |
|---|---|---|
| Entity.RankFollowsName | backend/src/main/java/com/example/kanban/entity/Task.java:32-34 | status stored by name: ranking DONE, IN_PROGRESS, TODO is exactly the string order of the stored names, and equal rank means equal status |
| Columns.Shift | backend/src/main/java/com/example/kanban/repository/TaskRepository.java:20-50 | the store after one bulk `UPDATE ... SET position = position + delta WHERE status = s AND <range>`: no row is added or lost, and rows of other columns are unchanged |
| Columns.ShiftEffect | backend/src/main/java/com/example/kanban/repository/TaskRepository.java:20-50 | a bulk UPDATE keeps every id, status and payload, and adds delta to the position of exactly the rows of that status whose position the WHERE clause selects |
| Columns.EmptyRangeChangesNothing | backend/src/main/java/com/example/kanban/repository/TaskRepository.java:27-34 | a BETWEEN range with start > end selects no row, so the statement changes nothing |
| Columns.MovedWithin | backend/src/main/java/com/example/kanban/service/TaskService.java:115-130 | the store after the same-column move (one BETWEEN shift towards the old slot, then the save of the loaded task at the new position): the rows are those of before plus the task, and rows of other columns are unchanged |
| Columns.MovedAcross | backend/src/main/java/com/example/kanban/service/TaskService.java:133-150 | the store after the cross-column move (decrement after the old slot, increment from the target, then the save with new status and position): the rows are those of before plus the task, and rows of the third column are unchanged |
| Columns.Moved | backend/src/main/java/com/example/kanban/service/TaskService.java:64-85 | the store after moveTask: unchanged for a no-op, otherwise the same-column or cross-column move; no row is added or lost, and a column that is neither left nor entered is unchanged |
| Columns.MovedTarget | backend/src/main/java/com/example/kanban/service/TaskService.java:115-150 | a move that is not a no-op leaves the moved task with the new status and the new position |
| Columns.MovedWithinAt | backend/src/main/java/com/example/kanban/service/TaskService.java:115-130 | same-column move, per other row: moving down shifts [old+1, new] up by one, moving up shifts [new, old-1] down by one, every other row is unchanged |
| Columns.MovedAcrossAt | backend/src/main/java/com/example/kanban/service/TaskService.java:133-150 | cross-column move, per other row: rows after the old slot in the old column move up one, rows at or after the target in the new column move down one, all others are unchanged |
| Columns.MovingRowNotShifted | backend/src/main/java/com/example/kanban/service/TaskService.java:115-150 | none of the bulk UPDATEs issued before the final save touches the moving row, so saving the copy loaded before them loses no update |
| Columns.NoOpMove | backend/src/main/java/com/example/kanban/service/TaskService.java:72-75 | a move to the task's own status and position leaves the store as it was |
| Columns.SameColumnStaysDense | backend/src/main/java/com/example/kanban/service/TaskService.java:115-130 | a same-column move to a slot in [0, n) keeps that column dense |
| Columns.SameColumnOthersStayDense | backend/src/main/java/com/example/kanban/service/TaskService.java:115-130 | a same-column move leaves every other column's density intact |
| Columns.AcrossColumns | backend/src/main/java/com/example/kanban/service/TaskService.java:147-149 | a cross-column move takes the task out of the old column and adds it to the new one, and changes no other membership |
| Columns.LeftColumnStaysDense | backend/src/main/java/com/example/kanban/service/TaskService.java:140-141 | closing the gap keeps the left column dense |
| Columns.EnteredColumnStaysDense | backend/src/main/java/com/example/kanban/service/TaskService.java:143-148 | opening a slot at a target in [0, n] keeps the entered column dense |
| Columns.AcrossOthersStayDense | backend/src/main/java/com/example/kanban/service/TaskService.java:133-150 | a cross-column move leaves the third column's density intact |
| Columns.MovePreservesDensity | backend/src/main/java/com/example/kanban/service/TaskService.java:64-85 | from a board whose columns are all dense, any in-range move leaves every column dense |
| Columns.OutOfRangeMoveLeavesGap | backend/src/main/java/com/example/kanban/service/TaskService.java:64-85 | the target is not clamped: a non-negative target past the column's range leaves the target column not dense |
| Columns.AppendPreservesDensity | backend/src/main/java/com/example/kanban/service/TaskService.java:42-46 | appending a fresh task at position n of its column keeps every column dense |
| Columns.PayloadEditKeepsColumns | backend/src/main/java/com/example/kanban/service/TaskService.java:55-60 | replacing title, description, assignee and priority changes no column's membership and keeps density |
| Columns.ListingLength | backend/src/main/java/com/example/kanban/repository/TaskRepository.java:16 | a column listing has exactly as many entries as the column has rows |
| Columns.DenseListingAtIndex | backend/src/main/java/com/example/kanban/service/TaskService.java:32-37 | in the listing of a dense column, the task at index i has position i |
| Columns.Without | backend/src/main/java/com/example/kanban/service/TaskService.java:95-100 | the list the filter loop builds: no longer than the listing, made of listed tasks only, none with the deleted id |
| Columns.WithoutAbsent | backend/src/main/java/com/example/kanban/service/TaskService.java:95-100 | filtering out an id the list does not hold returns the list unchanged |
| Columns.WithoutAt | backend/src/main/java/com/example/kanban/service/TaskService.java:95-100 | filtering out an id found once at index p is removing index p, with the order of the rest kept |
| Columns.WithoutIsListing | backend/src/main/java/com/example/kanban/service/TaskService.java:93-100 | the filtered list is a position-ordered listing of the column without the deleted row |
| Columns.Renumbered | backend/src/main/java/com/example/kanban/service/TaskService.java:103-109 | the store after the renumbering loop, which saves the task at index i with position i when its position differs: no row is lost, and any new key is the id of a listed task |
| Columns.RenumberedKeys | backend/src/main/java/com/example/kanban/service/TaskService.java:103-109 | renumbering stored tasks adds and removes no row |
| Columns.RenumberedRemove | backend/src/main/java/com/example/kanban/service/TaskService.java:103-111 | renumbering and then deleting a row not in the list is the same as deleting first and then renumbering |
| Columns.RenumberedListed | backend/src/main/java/com/example/kanban/service/TaskService.java:103-109 | after renumbering, the task at index i has position i and otherwise its stored fields |
| Columns.RenumberedUnlisted | backend/src/main/java/com/example/kanban/service/TaskService.java:103-109 | rows that are not in the list are unchanged by renumbering |
| Columns.RenumberedMember | backend/src/main/java/com/example/kanban/service/TaskService.java:103-109 | every row of the listed column ends up at its own index in the listing |
| Columns.RenumberedOther | backend/src/main/java/com/example/kanban/service/TaskService.java:103-109 | rows of the other columns are unchanged by renumbering |
| Columns.RenumberListing | backend/src/main/java/com/example/kanban/service/TaskService.java:102-109 | renumbering a column listing keeps the rows, makes the column dense, changes only positions and only in that column, and keeps the strict order of positions |
| Columns.RenumberedShape | backend/src/main/java/com/example/kanban/service/TaskService.java:103-109 | renumbering changes no field of a row other than its position |
| Columns.RenumberedOrder | backend/src/main/java/com/example/kanban/service/TaskService.java:103-109 | two rows of the column in strict position order stay in strict order after renumbering |
| Columns.RenumberedStatus | backend/src/main/java/com/example/kanban/service/TaskService.java:103-109 | renumbering changes no row's status |
| Columns.RenumberedDense | backend/src/main/java/com/example/kanban/service/TaskService.java:103-109 | renumbering a column listing leaves that column dense |
| Columns.Deleted | backend/src/main/java/com/example/kanban/service/TaskService.java:88-112 | the store after deleteTask given the listing the finder returned: the row is gone and every other row is still there |
| Columns.DeletedIsRenumberedRest | backend/src/main/java/com/example/kanban/service/TaskService.java:103-111 | the deleted store is the rest of the column renumbered within the table without the row |
| Columns.DeleteCompacts | backend/src/main/java/com/example/kanban/service/TaskService.java:88-112 | after a delete, the row is gone and nothing else is; its column is dense, even when it had gaps; no field but position changes; other columns are untouched; the relative order within the column is kept |
| Columns.DeleteIsDecrementAfter | backend/src/main/java/com/example/kanban/service/TaskService.java:88-112 | on a dense column, delete equals decrementPositionsAfter(status, position) applied to the table without the row |
| Columns.RenumberedGap | backend/src/main/java/com/example/kanban/service/TaskService.java:103-109 | renumbering a 0..n-1 listing with index p removed is the bulk shift of positions above p down by one |
| Columns.RenumberedAfterGap | backend/src/main/java/com/example/kanban/service/TaskService.java:103-109 | per-row form of the above: rows of the column above p move up one slot, all others stay |
| Columns.RemoveOtherKeepsDense | backend/src/main/java/com/example/kanban/service/TaskService.java:111 | removing a row of another column keeps a dense column dense |
| Columns.DeletePreservesDensity | backend/src/main/java/com/example/kanban/service/TaskService.java:88-112 | delete keeps every column of an all-dense board dense |
| Columns.MoveFirstToLast | backend/src/main/java/com/example/kanban/service/TaskService.java:115-130 | worked example: dragging the first of three TODO tasks to the end gives positions 2, 0, 1 |
| Columns.MoveToEmptyColumn | backend/src/main/java/com/example/kanban/service/TaskService.java:133-150 | worked example: moving the first TODO task into empty DONE at 0 closes the TODO gap |
| Columns.DeleteMiddle | backend/src/main/java/com/example/kanban/service/TaskService.java:88-112 | worked example: deleting the middle of three tasks renumbers the last to 1 |
| Repository.InsertSorted | backend/src/main/java/com/example/kanban/repository/TaskRepository.java:18 | inserting after every entry whose (status name, position) key is not greater keeps the list sorted, and inserts at one index |
| Repository.ScanSorted | backend/src/main/java/com/example/kanban/repository/TaskRepository.java:16-18 | the scan lists every selected row once, as stored, and nothing else, sorted by (status name, position) |
| Repository.SameStatusByPosition | backend/src/main/java/com/example/kanban/repository/TaskRepository.java:16 | within one status the key order is position order |
| Repository.KeyFollowsName | backend/src/main/java/com/example/kanban/repository/TaskRepository.java:18 | the sort key orders status by its stored string name, then by position |
| Repository.TaskRepository.FindById | backend/src/main/java/com/example/kanban/repository/TaskRepository.java:14 | findById returns the stored row if and only if the id is stored |
| Repository.TaskRepository.FindByStatusOrderByPositionAsc | backend/src/main/java/com/example/kanban/repository/TaskRepository.java:16 | returns every row of the column once, as stored, in ascending position, and nothing else |
| Repository.TaskRepository.FindAllByOrderByStatusAscPositionAsc | backend/src/main/java/com/example/kanban/repository/TaskRepository.java:18 | returns every row once, as stored, ordered by the status string and then by position |
| Repository.TaskRepository.Save | backend/src/main/java/com/example/kanban/repository/TaskRepository.java:14 | saving a stored entity replaces that one row and logs one write |
| Repository.TaskRepository.SaveNew | backend/src/main/java/com/example/kanban/repository/TaskRepository.java:14 | saving a new entity stores it under a fresh id from the sequence and logs one insert |
| Repository.TaskRepository.DeleteById | backend/src/main/java/com/example/kanban/repository/TaskRepository.java:14 | deleteById removes the row and ignores a missing id |
| Repository.TaskRepository.ShiftPositions | backend/src/main/java/com/example/kanban/repository/TaskRepository.java:20-50 | a bulk UPDATE turns the table into Shift of the old one (see Columns.ShiftEffect), keeps the id sequence and logs one statement |
| Repository.TaskRepository.DecrementPositionsAfter | backend/src/main/java/com/example/kanban/repository/TaskRepository.java:20-25 | rows of the column with position > p move up one |
| Repository.TaskRepository.DecrementPositionsBetween | backend/src/main/java/com/example/kanban/repository/TaskRepository.java:27-34 | rows of the column with start <= position <= end move up one |
| Repository.TaskRepository.IncrementPositionsFrom | backend/src/main/java/com/example/kanban/repository/TaskRepository.java:36-41 | rows of the column with position >= p move down one |
| Repository.TaskRepository.IncrementPositionsBetween | backend/src/main/java/com/example/kanban/repository/TaskRepository.java:43-50 | rows of the column with start <= position <= end move down one |
| Service.RenumberWrites | backend/src/main/java/com/example/kanban/service/TaskService.java:105-108 | the saves the renumbering loop issues: all of them writes, at most one per listed task |
| Service.RenumberWritesMisplaced | backend/src/main/java/com/example/kanban/service/TaskService.java:103-109 | the renumbering loop saves exactly the listed tasks whose position differs from their index |
| Service.RenumberWritesAreChanges | backend/src/main/java/com/example/kanban/service/TaskService.java:103-109 | the rows the renumbering saves are exactly the rows whose position it changes |
| Service.DeleteFacts | backend/src/main/java/com/example/kanban/service/TaskService.java:88-112 | the store and call log that deleteTask leaves meet its whole promise (see DeleteTask) |
| Service.TaskService.GetAllTasks | backend/src/main/java/com/example/kanban/service/TaskService.java:24-29 | every task exactly once, as stored, grouped by status name and ordered by position within a status |
| Service.TaskService.GetTasksByStatus | backend/src/main/java/com/example/kanban/service/TaskService.java:32-37 | the column in ascending position; on a dense column the task at index i has position i |
| Service.TaskService.CreateTask | backend/src/main/java/com/example/kanban/service/TaskService.java:40-48 | the new task gets a fresh id and goes to the end of its column (position = column size, whatever the request said); one insert; all-dense boards stay dense |
| Service.TaskService.UpdateTask | backend/src/main/java/com/example/kanban/service/TaskService.java:51-61 | NotFound for a missing id with no write; otherwise only the payload fields change, status and position are kept, one write, columns and density unchanged |
| Service.TaskService.MoveTask | backend/src/main/java/com/example/kanban/service/TaskService.java:64-85 | NotFound for a missing id with no write; otherwise the store becomes the specified move, the logged calls are exactly the bulk UPDATEs and the save of the chosen branch (none for a no-op), density is kept for in-range targets and lost for unclamped out-of-range ones |
| Service.TaskService.MoveWithinSameColumn | backend/src/main/java/com/example/kanban/service/TaskService.java:115-130 | one BETWEEN shift towards the old slot, then one save; the store becomes the same-column move |
| Service.TaskService.MoveToDifferentColumn | backend/src/main/java/com/example/kanban/service/TaskService.java:133-150 | decrement after the old slot, increment from the target, then one save; the store becomes the cross-column move |
| Service.TaskService.RenumberAll | backend/src/main/java/com/example/kanban/service/TaskService.java:103-109 | the loop leaves the store renumbered by list index and logs one write per task that moved |
| Service.TaskService.DeleteTask | backend/src/main/java/com/example/kanban/service/TaskService.java:88-112 | NotFound for a missing id with no write; otherwise the row is removed and its column compacted, as decrementPositionsAfter on a dense column; density is kept; only rows whose position changed are saved, then deleteById is called |

## Left out

- HTTP controller, request validation and DTO mapping (`TaskDTO.fromEntity` and
  `toEntity` copy fields). The service methods take and return the task record
  itself. `TaskForm` carries the fields the service reads.
- Service.TaskService.CreateTask: models a create request without an id. The
  controller passes the request body through (`TaskController.java:36`), and
  `TaskDTO.toEntity` copies its id (`TaskDTO.java:56`). The `save` at
  `TaskService.java:46` then merges onto the stored row with that id. That
  overwrites the row's status and position with no shift, and can break the
  density of two columns. The model always takes a fresh id from the sequence.
  Its `AllDense` ensures covers requests without an id only.
- Repository.TaskRepository.Save: requires the id to be stored already. The
  service only saves rows it has loaded, so an upsert of an unknown id is not
  modelled.
- Repository.TaskRepository.FindByStatusOrderByPositionAsc: rows with equal
  positions come out in an order the database does not fix. The model promises
  only non-decreasing positions, not a particular tie order.
- The id sequence is a counter starting at 1. Database identity allocation,
  gaps and reuse are not modelled.
- The `createdAt` and `updatedAt` timestamps are left out. The log records
  which rows are passed to `save`. Those are the rows that get a new
  `updatedAt`, except when the saved entity equals the stored row: an
  `updateTask` whose payload equals the stored one leads to no UPDATE and keeps
  the old `updatedAt`.
- The Java `Integer` position is an unbounded `int`; 32-bit overflow is not
  modelled. It is reachable: a move request's position is bounded only from
  below (`MoveTaskRequest.java:25`) and is stored unclamped
  (`TaskService.java:128`, `148`). A task moved to 2147483647 makes the next
  `incrementPositionsFrom` or `incrementPositionsBetween` on that column compute
  position + 1, which is outside the 32-bit column range.
- Database constraint failures are not modelled. Only the title (`@NotBlank`),
  status and position (`@NotNull`) are validated before the service runs.
  Description, assignee and priority may be null, and `updateTask` copies them
  as given. The column length limits (`Task.java:26`, `29`, `39`) are enforced
  by the database at flush, inside the transaction. An over-long title,
  description or assignee therefore makes `createTask` or `updateTask` fail and
  roll back, while the model's `CreateTask` and `UpdateTask` always succeed.
- Concurrency: each service method is one `@Transactional` unit and is modelled
  as atomic. Interleavings of concurrent requests and isolation levels are not
  modelled.
- The persistence context: `clearAutomatically` and the first-level cache are
  not modelled as state. Their one visible effect is the save of a record loaded
  before a bulk UPDATE, and that is modelled (see `Columns.MovingRowNotShifted`).
- The frontend and the CORS configuration are not part of this model.
