/** The Task entity of the Kanban board, reduced to what the ordering logic
    reads and writes: identity, status column, position, and an opaque payload. */
module Entity {

  type TaskId = nat

  /** The three columns. The database stores the constant's NAME as a string,
      so every ORDER BY on status sorts by that name. */
  datatype Status = Todo | InProgress | Done

  datatype Priority = Low | Medium | High

  /** Fields the ordering logic never interprets. */
  datatype Payload = Payload(title: string, description: string, assignee: string, priority: Priority)

  /** A stored row: id, status column, position within the column, payload. */
  datatype Task = Task(id: TaskId, status: Status, position: int, payload: Payload)

  /** The string the database holds in the status column. */
  function Name(s: Status): string
  {
    match s
    case Todo => "TODO"
    case InProgress => "IN_PROGRESS"
    case Done => "DONE"
  }

  /** Lexicographic order on strings, as the database compares the status column. */
  predicate StringLess(a: string, b: string)
  {
    |b| > 0 && (|a| == 0 || a[0] < b[0] || (a[0] == b[0] && StringLess(a[1..], b[1..])))
  }

  lemma {:induction false} StringLessIrreflexive(a: string)
    ensures !StringLess(a, a)
  {
    if |a| > 0 {
      StringLessIrreflexive(a[1..]);
    }
  }

  /** The rank of a status in name order: DONE, IN_PROGRESS, TODO. */
  function Rank(s: Status): (r: nat)
    ensures r < 3
  {
    match s
    case Done => 0
    case InProgress => 1
    case Todo => 2
  }

  /** Ranks follow the string order of the names, so sorting by Rank is sorting
      by the stored status string (and not by declaration order). */
  lemma RankFollowsName(a: Status, b: Status)
    ensures Rank(a) < Rank(b) <==> StringLess(Name(a), Name(b))
    ensures Rank(a) == Rank(b) <==> a == b
  {
    if a == b {
      StringLessIrreflexive(Name(a));
    }
  }
}
