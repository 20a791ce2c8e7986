/**
 * What each operation of `managers/InMemoryTaskManager` does to the whole
 * store, as functions on values: the three id-keyed maps, the priority
 * index, the id counter and the view history. Each function returns the
 * store the call leaves behind (also when it throws part-way) and the
 * call's result or failure. `HashMap` iteration is taken in ascending id
 * order.
 */
module TaskStore {
  import opened Wrappers
  import opened Failures
  import opened Seqs
  import opened Tasks
  import EpicState
  import opened TaskManagerUtil
  import opened PriorityIndex
  import opened HistoryManagers

  datatype Store = Store(
    tasks: map<int, Item>,
    epics: map<int, Item>,
    subtasks: map<int, Item>,
    prioritized: seq<Item>,
    lastTaskId: int,
    history: seq<Item>)

  /** A new manager: empty maps, an empty index, counter 0, no history. */
  function Empty(): (s: Store)
    ensures s.tasks == map[] && s.epics == map[] && s.subtasks == map[]
    ensures s.prioritized == [] && s.lastTaskId == 0 && s.history == []
  {
    Store(map[], map[], map[], [], 0, [])
  }

  /** Each map holds values under their own id. */
  ghost predicate KeyedById(m: map<int, Item>)
  {
    forall k :: k in m ==> m[k].id == k
  }

  /**
   * What the manager keeps true: values sit under their own ids, the epic
   * and subtask maps hold only their class, the index holds only timed
   * tasks and subtasks, and the history has one entry per id.
   */
  ghost predicate Inv(s: Store)
  {
    KeyedById(s.tasks) && KeyedById(s.epics) && KeyedById(s.subtasks) &&
    (forall k :: k in s.epics ==> s.epics[k].Epic?) &&
    (forall k :: k in s.subtasks ==> s.subtasks[k].Subtask?) &&
    Entries(s.prioritized) && UniqueIds(s.history)
  }

  /** `getSubtasksByEpic`: each listed id looked up in the subtask map, `null` when absent. */
  function SubtasksByIds(subtasks: map<int, Item>, ids: seq<int>): (r: seq<Option<Item>>)
    ensures |r| == |ids|
    ensures forall i :: 0 <= i < |ids| ==>
      (ids[i] in subtasks ==> r[i] == Some(subtasks[ids[i]])) && (ids[i] !in subtasks ==> r[i] == None)
  {
    seq(|ids|, i requires 0 <= i < |ids| => if ids[i] in subtasks then Some(subtasks[ids[i]]) else None)
  }

  /** `isTimeIntersected(task)` over the index, with the exception it leads to. */
  function CheckTime(s: Store, task: Item): (r: Outcome)
  {
    match IsTimeIntersected(task, s.prioritized)
    case None => Fail(NullPointer)
    case Some(true) => Fail(TimeIntersected(task.id))
    case Some(false) => Pass
  }

  /**
   * A write is refused with `TimeIntersectedException` exactly when some
   * index entry other than the item overlaps it (for a timed item whose
   * compared entries are all timed).
   */
  lemma CheckTimeSpec(s: Store, task: Item)
    requires Inv(s) && task.startTime.Some?
    ensures CheckTime(s, task) == Fail(TimeIntersected(task.id)) <==>
      exists i :: 0 <= i < |s.prioritized| && !Equal(task, s.prioritized[i]) &&
        IsIntersectedByTime(s.prioritized[i], task) == Some(true)
    ensures CheckTime(s, task).Pass? || CheckTime(s, task) == Fail(TimeIntersected(task.id))
  {
    TimeIntersectedIffSomeOtherOverlaps(task, s.prioritized);
  }

  /** `add` to the index for an item with a start time; an item without one is not added. */
  function Schedule(prioritized: seq<Item>, t: Item): (r: seq<Item>)
    requires Timed(prioritized)
  {
    if t.startTime.Some? then Add(prioritized, t) else prioritized
  }

  /** Scheduling keeps the index well-formed and ordered. */
  lemma ScheduleSpec(prioritized: seq<Item>, t: Item)
    requires Entries(prioritized) && (t.startTime.Some? ==> !t.Epic?)
    ensures Entries(Schedule(prioritized, t))
    ensures Ascending(prioritized) ==> Ascending(Schedule(prioritized, t))
  {
    if t.startTime.Some? {
      AddMembers(prioritized, t);
      var r := Add(prioritized, t);
      forall i | 0 <= i < |r| ensures r[i].startTime.Some? && !r[i].Epic? {
        assert r[i] in r;
        if r[i] != t {
          var k :| 0 <= k < |prioritized| && prioritized[k] == r[i];
        }
      }
      if Ascending(prioritized) {
        AddAscending(prioritized, t);
      }
    }
  }

  /** `createTask`: refuse an overlap, else take the next id, store a copy and index it if timed. */
  function CreateTask(s: Store, task: Item): (r: (Store, Result<Item, Failure>))
    requires Inv(s)
  {
    match CheckTime(s, task)
    case Fail(f) => (s, Err(f))
    case Pass =>
      var id := s.lastTaskId + 1;
      var t := WithId(task, id);
      var copy := GetCopyTask(t);
      (s.(tasks := s.tasks[id := copy], prioritized := Schedule(s.prioritized, copy), lastTaskId := id), Ok(t))
  }

  /** `createEpic`: take the next id and store a copy, which starts with no subtask ids. */
  function CreateEpic(s: Store, epic: Item): (r: (Store, Item))
    requires epic.Epic?
  {
    var id := s.lastTaskId + 1;
    var t := WithId(epic, id);
    (s.(epics := s.epics[id := GetCopyTask(t)], lastTaskId := id), t)
  }

  /**
   * `createSubtask`: refuse an overlap, else take the next id, store a copy,
   * index it if timed, then list it in its epic and recompute the epic. The
   * epic lookup is not checked: a missing epic throws after the subtask is
   * stored, and so does the recomputation on a subtask without a start.
   */
  function CreateSubtask(s: Store, sub: Item): (r: (Store, Result<Item, Failure>))
    requires Inv(s) && sub.Subtask?
  {
    match CheckTime(s, sub)
    case Fail(f) => (s, Err(f))
    case Pass =>
      var id := s.lastTaskId + 1;
      var t := WithId(sub, id);
      var copy := GetCopyTask(t);
      var s1 := s.(subtasks := s.subtasks[id := copy], prioritized := Schedule(s.prioritized, copy), lastTaskId := id);
      if t.epicId !in s1.epics then (s1, Err(NullPointer))
      else
        var e := s1.epics[t.epicId];
        var listed := e.(subtaskIds := EpicState.AddSubtaskId(e.subtaskIds, id));
        var (e2, ok) := EpicState.CalculateState(listed, SubtasksByIds(s1.subtasks, listed.subtaskIds));
        (s1.(epics := s1.epics[t.epicId := e2]), if ok then Ok(t) else Err(NullPointer))
  }

  /**
   * `updateTask`: refuse an overlap, update the index entries equal to the
   * item (or remove it by start when it has none), then store a copy under
   * its id, whether or not the id was there.
   */
  function UpdateTask(s: Store, task: Item): (r: (Store, Result<Item, Failure>))
    requires Inv(s)
  {
    match CheckTime(s, task)
    case Fail(f) => (s, Err(f))
    case Pass =>
      match UpdateOrRemove(s.prioritized, task)
      case Err(f) => (s, Err(f))
      case Ok(idx) =>
        var copy := GetCopyTask(task);
        (s.(prioritized := idx, tasks := s.tasks[copy.id := copy]), Ok(task))
  }

  /** The ids of the subtasks, among `ids`, whose epic is `epicId`, in the order of `ids`. */
  function ChildIds(subtasks: map<int, Item>, ids: seq<int>, epicId: int): (r: seq<int>)
  {
    if ids == [] then []
    else
      var k := ids[|ids| - 1];
      var child := k in subtasks && subtasks[k].Subtask? && subtasks[k].epicId == epicId;
      ChildIds(subtasks, ids[..|ids| - 1], epicId) + (if child then [k] else [])
  }

  /** The ids `addSubtaskId` one after the other onto a list. */
  function AddAll(ids: seq<int>, more: seq<int>): (r: seq<int>)
  {
    if more == [] then ids
    else EpicState.AddSubtaskId(AddAll(ids, more[..|more| - 1]), more[|more| - 1])
  }

  /**
   * `updateEpic`: a fresh copy of the epic collects the ids of every stored
   * subtask naming it, and so does the caller's object; both are recomputed
   * from those subtasks and the copy is stored (a recomputation that throws
   * stores nothing). The caller's object, with its additions, is returned.
   */
  function UpdateEpic(s: Store, epic: Item): (r: (Store, Result<Item, Failure>))
    requires epic.Epic?
  {
    var copy := GetCopyTask(epic);
    var children := ChildIds(s.subtasks, SortedIds(s.subtasks.Keys), copy.id);
    var caller := epic.(subtaskIds := AddAll(epic.subtaskIds, children));
    var stored := copy.(subtaskIds := AddAll(copy.subtaskIds, children));
    PutRecalculated(s, caller, stored, SubtasksByIds(s.subtasks, stored.subtaskIds))
  }

  /**
   * The end of `updateEpic`: both epic objects are recomputed from the same
   * subtasks; the first failure aborts before the put, otherwise `stored`
   * is put under its id and `caller` is returned.
   */
  function PutRecalculated(s: Store, caller: Item, stored: Item, subs: seq<Option<Item>>): (r: (Store, Result<Item, Failure>))
    requires caller.Epic? && stored.Epic?
  {
    var (c2, ok1) := EpicState.CalculateState(caller, subs);
    if !ok1 then (s, Err(NullPointer))
    else
      var (e2, ok2) := EpicState.CalculateState(stored, subs);
      if !ok2 then (s, Err(NullPointer))
      else (s.(epics := s.epics[stored.id := e2]), Ok(c2))
  }

  /**
   * `updateSubtask`: refuse an overlap; with no such epic nothing changes and
   * the result is `null`; otherwise update the index, store a copy and
   * recompute the epic from its listed ids (a new id is stored but not listed).
   */
  function UpdateSubtask(s: Store, sub: Item): (r: (Store, Result<Option<Item>, Failure>))
    requires Inv(s) && sub.Subtask?
  {
    match CheckTime(s, sub)
    case Fail(f) => (s, Err(f))
    case Pass =>
      if sub.epicId !in s.epics then (s, Ok(None))
      else match UpdateOrRemove(s.prioritized, sub)
        case Err(f) => (s, Err(f))
        case Ok(idx) =>
          var copy := GetCopyTask(sub);
          var subs := s.subtasks[copy.id := copy];
          var e := s.epics[sub.epicId];
          var (e2, ok) := EpicState.CalculateState(e, SubtasksByIds(subs, e.subtaskIds));
          (s.(prioritized := idx, subtasks := subs, epics := s.epics[sub.epicId := e2]),
           if ok then Ok(Some(sub)) else Err(NullPointer))
  }

  /** `getTask`, `getEpic`, `getSubtask` on map `m`: absent is `NotFoundException`, present is recorded in the history. */
  function Get(s: Store, m: map<int, Item>, id: int): (r: (Store, Result<Item, Failure>))
  {
    if id !in m then (s, Err(NotFound(id)))
    else (s.(history := Record(s.history, m[id])), Ok(m[id]))
  }

  /** `deleteAllTasks`: `removeAll` of the task values from the index, then clear the map. */
  function DeleteAllTasks(s: Store): (r: (Store, Outcome))
  {
    var (idx, out) := RemoveAll(s.prioritized, Values(s.tasks));
    if out.Fail? then (s.(prioritized := idx), out)
    else (s.(prioritized := idx, tasks := map[]), Pass)
  }

  /** `deleteAllSubtasks`: `removeAll` of the subtask values, then clear the map; epics keep their lists. */
  function DeleteAllSubtasks(s: Store): (r: (Store, Outcome))
  {
    var (idx, out) := RemoveAll(s.prioritized, Values(s.subtasks));
    if out.Fail? then (s.(prioritized := idx), out)
    else (s.(prioritized := idx, subtasks := map[]), Pass)
  }

  /** `deleteAllEpics`: all subtasks first, then clear the epics. */
  function DeleteAllEpics(s: Store): (r: (Store, Outcome))
  {
    var (s1, out) := DeleteAllSubtasks(s);
    if out.Fail? then (s1, out) else (s1.(epics := map[]), Pass)
  }

  /**
   * `deleteTask`: drop every index entry and the history entry with the id,
   * then remove the task; an absent id throws only after the first two.
   */
  function DeleteTask(s: Store, id: int): (r: (Store, Result<Item, Failure>))
  {
    var s1 := s.(prioritized := RemoveId(s.prioritized, id), history := Without(s.history, id));
    if id in s.tasks then (s1.(tasks := s.tasks - {id}), Ok(s.tasks[id]))
    else (s1, Err(NotFound(id)))
  }

  /** One step of the cascade: the subtask id leaves the index, the history and the subtask map. */
  function DropSubtask(s: Store, sid: int): (r: Store)
  {
    s.(prioritized := RemoveId(s.prioritized, sid), history := Without(s.history, sid),
       subtasks := s.subtasks - {sid})
  }

  /** The cascade over a list of subtask ids, in list order. */
  function DropSubtasks(s: Store, ids: seq<int>): (r: Store)
  {
    if ids == [] then s else DropSubtask(DropSubtasks(s, ids[..|ids| - 1]), ids[|ids| - 1])
  }

  /** `deleteEpic`: remove the epic and its history entry, then cascade over its listed subtasks. */
  function DeleteEpic(s: Store, id: int): (r: (Store, Result<Item, Failure>))
  {
    if id !in s.epics then (s, Err(NotFound(id)))
    else
      var e := s.epics[id];
      var s1 := s.(epics := s.epics - {id}, history := Without(s.history, id));
      (DropSubtasks(s1, if e.Epic? then e.subtaskIds else []), Ok(e))
  }

  /**
   * `deleteSubtask`: remove the subtask, its index entry and its history
   * entry, then take its id off the epic's list; an epic left with no ids is
   * deleted with its history entry, otherwise it is recomputed. A missing
   * epic throws after the removals.
   */
  function DeleteSubtask(s: Store, id: int): (r: (Store, Result<Item, Failure>))
    requires Inv(s)
  {
    if id !in s.subtasks then (s, Err(NotFound(id)))
    else
      var r := s.subtasks[id];
      var s1 := s.(subtasks := s.subtasks - {id}, prioritized := RemoveId(s.prioritized, id),
                   history := Without(s.history, id));
      if r.epicId !in s1.epics then (s1, Err(NullPointer))
      else
        var e := s1.epics[r.epicId];
        var e1 := e.(subtaskIds := EpicState.RemoveSubtaskId(e.subtaskIds, r.id));
        if e1.subtaskIds == [] then
          (s1.(history := Without(s1.history, e1.id), epics := s1.epics[r.epicId := e1] - {e1.id}), Ok(r))
        else
          var (e2, ok) := EpicState.CalculateState(e1, SubtasksByIds(s1.subtasks, e1.subtaskIds));
          (s1.(epics := s1.epics[r.epicId := e2]), if ok then Ok(r) else Err(NullPointer))
  }
}
