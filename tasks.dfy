/**
 * The three kinds of work item (`tasks/Task`, `tasks/Subtask`, `tasks/Epic`)
 * as values. Times are whole minutes on one time line, durations are whole
 * non-negative minutes, and a `null` start or end time is `None`.
 */
module Tasks {
  import opened Wrappers
  import opened Failures
  import opened TaskStatuses

  /** The runtime class of an item, as `TaskType` names it in `toString`. */
  datatype Kind = TASK | SUBTASK | EPIC

  /**
   * One item with the fields of its runtime class. `epicId` is final in
   * `Subtask`; `endTime` and `subtaskIds` exist only on `Epic`.
   */
  datatype Item =
    | Task(id: int, name: string, description: string, status: Status,
           startTime: Option<int>, duration: nat)
    | Subtask(id: int, name: string, description: string, status: Status,
              startTime: Option<int>, duration: nat, epicId: int)
    | Epic(id: int, name: string, description: string, status: Status,
           startTime: Option<int>, duration: nat, endTime: Option<int>, subtaskIds: seq<int>)

  function KindOf(t: Item): (k: Kind)
    ensures k == EPIC <==> t.Epic?
    ensures k == SUBTASK <==> t.Subtask?
  {
    match t
    case Task(_, _, _, _, _, _) => TASK
    case Subtask(_, _, _, _, _, _, _) => SUBTASK
    case Epic(_, _, _, _, _, _, _, _) => EPIC
  }

  /**
   * The item with new values for the fields every class has apart from the id,
   * keeping the id and the class-specific fields.
   */
  function WithFields(t: Item, name: string, description: string, status: Status,
                      startTime: Option<int>, duration: nat): (r: Item)
    ensures KindOf(r) == KindOf(t) && r.id == t.id
    ensures r.name == name && r.description == description && r.status == status
    ensures r.startTime == startTime && r.duration == duration
    ensures r.Subtask? ==> r.epicId == t.epicId
    ensures r.Epic? ==> r.endTime == t.endTime && r.subtaskIds == t.subtaskIds
  {
    match t
    case Task(id, _, _, _, _, _) => Task(id, name, description, status, startTime, duration)
    case Subtask(id, _, _, _, _, _, epicId) => Subtask(id, name, description, status, startTime, duration, epicId)
    case Epic(id, _, _, _, _, _, endTime, ids) => Epic(id, name, description, status, startTime, duration, endTime, ids)
  }

  /** The item with a new id and every other field kept (`setId`). */
  function WithId(t: Item, id: int): (r: Item)
    ensures KindOf(r) == KindOf(t) && r.id == id
    ensures r.name == t.name && r.description == t.description && r.status == t.status
    ensures r.startTime == t.startTime && r.duration == t.duration
    ensures r.Subtask? ==> r.epicId == t.epicId
    ensures r.Epic? ==> r.endTime == t.endTime && r.subtaskIds == t.subtaskIds
  {
    match t
    case Task(_, n, d, s, st, du) => Task(id, n, d, s, st, du)
    case Subtask(_, n, d, s, st, du, e) => Subtask(id, n, d, s, st, du, e)
    case Epic(_, n, d, s, st, du, en, ids) => Epic(id, n, d, s, st, du, en, ids)
  }

  /** `equals`: the same runtime class and the same id. */
  predicate Equal(a: Item, b: Item)
  {
    KindOf(a) == KindOf(b) && a.id == b.id
  }

  /** `hashCode`: the id. */
  function HashCode(t: Item): (h: int)
  {
    t.id
  }

  /**
   * Equality ignores every field except the class and the id, so two items
   * that differ in name, status or time are still equal.
   */
  lemma EqualIgnoresContents(a: Item, b: Item)
    ensures Equal(a, b) <==> ((a.Task? && b.Task?) || (a.Subtask? && b.Subtask?) || (a.Epic? && b.Epic?)) && a.id == b.id
  {
  }

  /** `equals` is an equivalence relation and agrees with `hashCode`. */
  lemma EqualIsEquivalence(a: Item, b: Item, c: Item)
    ensures Equal(a, a)
    ensures Equal(a, b) ==> Equal(b, a)
    ensures Equal(a, b) && Equal(b, c) ==> Equal(a, c)
    ensures Equal(a, b) ==> HashCode(a) == HashCode(b)
  {
  }

  /**
   * `getEndTime`. A task or subtask computes start plus duration and fails on
   * a null start; an epic returns its stored `endTime` field, possibly null.
   */
  function GetEndTime(t: Item): (r: Result<Option<int>, Failure>)
    ensures t.Epic? ==> r == Ok(t.endTime)
    ensures !t.Epic? ==> (r.Ok? <==> t.startTime.Some?)
    ensures !t.Epic? && r.Ok? ==> r.value.Some? && r.value.value - t.startTime.value == t.duration
  {
    if t.Epic? then Ok(t.endTime)
    else if t.startTime.None? then Err(NullPointer)
    else Ok(Some(t.startTime.value + t.duration))
  }
}
