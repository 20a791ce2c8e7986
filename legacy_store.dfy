/**
 * The state of the managers of package `ru.yandex.practicum.task`
 * (`task/InMemoryTaskManager` and `task/TaskManager`, which differ only in
 * the history) as a value, and each operation as a function from the state
 * before to the state after and the result. These managers store the
 * caller's object itself, return `null` instead of throwing `NotFound`, and
 * fail with a null pointer where they dereference a missing epic.
 */
module LegacyStore {
  import opened Wrappers
  import opened Failures
  import opened Seqs
  import opened TaskStatuses
  import opened LegacyTasks
  import opened LegacyEpics

  datatype Store = Store(tasks: map<int, Task>, epics: map<int, Epic>, subtasks: map<int, Subtask>, lastTaskId: int)

  /** An entry of the history, which holds items of all three classes. */
  datatype Entry = TaskEntry(task: Task) | EpicEntry(epic: Epic) | SubtaskEntry(subtask: Subtask)

  function Empty(): Store
  {
    Store(map[], map[], map[], 0)
  }

  /** Every item is stored under its own id. */
  ghost predicate Inv(s: Store)
  {
    (forall k :: k in s.tasks ==> s.tasks[k].id == k) &&
    (forall k :: k in s.epics ==> s.epics[k].id == k) &&
    (forall k :: k in s.subtasks ==> s.subtasks[k].id == k)
  }

  /** `getSubtasksByEpic`: the map's value for each listed id, `null` for an id not in the map. */
  function SubtasksByIds(subtasks: map<int, Subtask>, ids: seq<int>): (r: seq<Option<Subtask>>)
    ensures |r| == |ids| && forall i :: 0 <= i < |ids| ==> r[i] == Find(subtasks, ids[i])
  {
    seq(|ids|, i requires 0 <= i < |ids| => Find(subtasks, ids[i]))
  }

  /** `createTask`: the next id is set on the caller's task, which is stored as is. */
  function CreateTask(s: Store, task: Task): (r: (Store, Task))
  {
    var t := task.(id := s.lastTaskId + 1);
    (s.(tasks := s.tasks[t.id := t], lastTaskId := t.id), t)
  }

  /** `createEpic`: likewise for an epic, its list and status as the caller left them. */
  function CreateEpic(s: Store, epic: Epic): (r: (Store, Epic))
  {
    var e := epic.(id := s.lastTaskId + 1);
    (s.(epics := s.epics[e.id := e], lastTaskId := e.id), e)
  }

  /**
   * `createSubtask`: store the subtask under the next id, then append the
   * id to its epic and recompute the epic's status. A missing epic throws
   * after the subtask is stored; a status loop that throws leaves the id
   * appended.
   */
  function CreateSubtask(s: Store, sub: Subtask): (r: (Store, Result<Subtask, Failure>))
  {
    var t := sub.(id := s.lastTaskId + 1);
    var s1 := s.(subtasks := s.subtasks[t.id := t], lastTaskId := t.id);
    if t.epicId !in s1.epics then (s1, Err(NullPointer))
    else
      var e := AddSubtaskId(s1.epics[t.epicId], t.id);
      var s2 := s1.(epics := s1.epics[t.epicId := e]);
      match CalculateAndSetStatus(e, SubtasksByIds(s2.subtasks, e.subtaskIds))
      case None => (s2, Err(NullPointer))
      case Some(e2) => (s2.(epics := s2.epics[t.epicId := e2]), Ok(t))
  }

  /** `updateTask`: put under the task's id and return what was there. */
  function UpdateTask(s: Store, task: Task): (r: (Store, Option<Task>))
  {
    (s.(tasks := s.tasks[task.id := task]), Find(s.tasks, task.id))
  }

  /** `updateEpic`: put under the epic's id and return what was there. */
  function UpdateEpic(s: Store, epic: Epic): (r: (Store, Option<Epic>))
  {
    (s.(epics := s.epics[epic.id := epic]), Find(s.epics, epic.id))
  }

  /**
   * `updateSubtask`: with no such epic nothing changes and the result is
   * `null`; otherwise put the subtask, recompute the epic's status, and
   * return what was stored under the id before.
   */
  function UpdateSubtask(s: Store, sub: Subtask): (r: (Store, Result<Option<Subtask>, Failure>))
  {
    if sub.epicId !in s.epics then (s, Ok(None))
    else
      var s1 := s.(subtasks := s.subtasks[sub.id := sub]);
      var e := s1.epics[sub.epicId];
      match CalculateAndSetStatus(e, SubtasksByIds(s1.subtasks, e.subtaskIds))
      case None => (s1, Err(NullPointer))
      case Some(e2) => (s1.(epics := s1.epics[sub.epicId := e2]), Ok(Find(s.subtasks, sub.id)))
  }

  /** `deleteTaskById`: remove and return what was there. */
  function DeleteTask(s: Store, id: int): (r: (Store, Option<Task>))
  {
    (s.(tasks := s.tasks - {id}), Find(s.tasks, id))
  }

  /** `deleteEpicById`: remove the epic, then each subtask it lists; return the epic or `null`. */
  function DeleteEpic(s: Store, id: int): (r: (Store, Option<Epic>))
  {
    if id !in s.epics then (s, None)
    else
      var e := s.epics[id];
      (s.(epics := s.epics - {id}, subtasks := RemoveKeys(s.subtasks, e.subtaskIds)), Some(e))
  }

  /**
   * `deleteSubtaskById`: remove the subtask; then take its id off the
   * epic's list (a missing epic throws), delete an epic left with none, and
   * otherwise recompute its status.
   */
  function DeleteSubtask(s: Store, id: int): (r: (Store, Result<Option<Subtask>, Failure>))
  {
    if id !in s.subtasks then (s, Ok(None))
    else
      var removed := s.subtasks[id];
      var s1 := s.(subtasks := s.subtasks - {id});
      if removed.epicId !in s1.epics then (s1, Err(NullPointer))
      else
        var e := RemoveSubtaskId(s1.epics[removed.epicId], removed.id);
        var s2 := s1.(epics := s1.epics[removed.epicId := e]);
        if e.subtaskIds == [] then (s2.(epics := s2.epics - {e.id}), Ok(Some(removed)))
        else match CalculateAndSetStatus(e, SubtasksByIds(s2.subtasks, e.subtaskIds))
          case None => (s2, Err(NullPointer))
          case Some(e2) => (s2.(epics := s2.epics[removed.epicId := e2]), Ok(Some(removed)))
  }

  // ----- what the operations promise -----

  lemma EmptyIsValid()
    ensures Inv(Empty())
  {
  }

  /**
   * The create operations take the next id, store the caller's object
   * itself under it, and keep every item stored under its own id.
   */
  lemma CreateSpec(s: Store, task: Task, epic: Epic)
    requires Inv(s)
    ensures var (s', t) := CreateTask(s, task);
      Inv(s') && t.id == s.lastTaskId + 1 == s'.lastTaskId && s'.tasks == s.tasks[t.id := t] &&
      t.(id := task.id) == task && s'.epics == s.epics && s'.subtasks == s.subtasks
    ensures var (s', e) := CreateEpic(s, epic);
      Inv(s') && e.id == s.lastTaskId + 1 == s'.lastTaskId && s'.epics == s.epics[e.id := e] &&
      e.(id := epic.id) == epic && s'.tasks == s.tasks && s'.subtasks == s.subtasks
  {
  }

  /**
   * `createSubtask` always stores the subtask under the next id. A missing
   * epic gives a null pointer with nothing else changed; otherwise the epic
   * lists the id at the end, and on success its status is the loop's. No
   * other epic changes.
   */
  lemma CreateSubtaskSpec(s: Store, sub: Subtask)
    requires Inv(s)
    ensures var (s', r) := CreateSubtask(s, sub);
      var id := s.lastTaskId + 1;
      Inv(s') && s'.lastTaskId == id && s'.subtasks == s.subtasks[id := sub.(id := id)] &&
      s'.tasks == s.tasks && s'.epics.Keys == s.epics.Keys &&
      (forall k :: k in s.epics && k != sub.epicId ==> s'.epics[k] == s.epics[k]) &&
      (sub.epicId !in s.epics ==> r == Err(NullPointer) && s'.epics == s.epics) &&
      (sub.epicId in s.epics ==>
        s'.epics[sub.epicId].subtaskIds == s.epics[sub.epicId].subtaskIds + [id] &&
        (r.Ok? ==>
          r.value == sub.(id := id) &&
          Some(s'.epics[sub.epicId].status) == StatusBySubtasks(Statuses(SubtasksByIds(s'.subtasks, s'.epics[sub.epicId].subtaskIds)))))
  {
  }

  /**
   * Subtasks left listed after `deleteAllSubtasks` make the next
   * `createSubtask` on that epic throw: the status loop meets a `null`.
   */
  lemma StaleIdFailsCreateSubtask()
    ensures var s := Store(map[], map[1 := Epic(1, "e", "", NEW, [2])], map[], 3);
      var s' := s.(subtasks := map[]);
      CreateSubtask(s', Subtask(0, "s", "", DONE, 1)).1 == Err(NullPointer)
  {
    var s' := Store(map[], map[1 := Epic(1, "e", "", NEW, [2])], map[], 3);
    var e := AddSubtaskId(s'.epics[1], 4);
    assert e.subtaskIds == [2, 4];
    var subs := SubtasksByIds(s'.subtasks[4 := Subtask(4, "s", "", DONE, 1)], e.subtaskIds);
    assert subs[0] == None;
    assert Statuses(subs) == [None, Some(DONE)];
  }

  /** The update operations put the caller's object under its id and return the old value or `null`. */
  lemma UpdateSpec(s: Store, task: Task, epic: Epic)
    requires Inv(s)
    ensures var (s', r) := UpdateTask(s, task);
      Inv(s') && s'.tasks[task.id] == task && (r.Some? <==> task.id in s.tasks) &&
      (r.Some? ==> r.value == s.tasks[task.id]) && s'.epics == s.epics && s'.subtasks == s.subtasks
    ensures var (s', r) := UpdateEpic(s, epic);
      Inv(s') && s'.epics[epic.id] == epic && (r.Some? <==> epic.id in s.epics) &&
      (r.Some? ==> r.value == s.epics[epic.id]) && s'.tasks == s.tasks && s'.subtasks == s.subtasks
  {
  }

  /**
   * `updateSubtask` changes nothing and returns `null` when the epic is
   * missing; otherwise it stores the subtask and, unless the status loop
   * throws, sets only that epic's status, to what the loop gives over the
   * stored subtasks it lists, and returns the old value. No other epic
   * changes.
   */
  lemma UpdateSubtaskSpec(s: Store, sub: Subtask)
    requires Inv(s)
    ensures var (s', r) := UpdateSubtask(s, sub);
      Inv(s') && s'.tasks == s.tasks && s'.lastTaskId == s.lastTaskId &&
      (sub.epicId !in s.epics ==> s' == s && r == Ok(None)) &&
      (sub.epicId in s.epics ==>
        s'.subtasks == s.subtasks[sub.id := sub] && s'.epics.Keys == s.epics.Keys &&
        (forall k :: k in s.epics && k != sub.epicId ==> s'.epics[k] == s.epics[k]) &&
        (r.Ok? ==>
          r.value == Find(s.subtasks, sub.id) &&
          s'.epics[sub.epicId] == s.epics[sub.epicId].(status := s'.epics[sub.epicId].status) &&
          Some(s'.epics[sub.epicId].status) == StatusBySubtasks(Statuses(SubtasksByIds(s'.subtasks, s'.epics[sub.epicId].subtaskIds)))) &&
        (r.Err? ==> s'.epics == s.epics))
  {
  }

  /** `deleteTaskById` removes only the task and returns it, or `null` with nothing changed. */
  lemma DeleteTaskSpec(s: Store, id: int)
    requires Inv(s)
    ensures var (s', r) := DeleteTask(s, id);
      Inv(s') && s'.tasks == s.tasks - {id} && (r.Some? <==> id in s.tasks) &&
      (r.Some? ==> r.value == s.tasks[id]) && (id !in s.tasks ==> s' == s) &&
      s'.epics == s.epics && s'.subtasks == s.subtasks && s'.lastTaskId == s.lastTaskId
  {
  }

  /**
   * `deleteEpicById` removes the epic and every subtask it lists, keeps the
   * other subtasks, and returns the epic, or `null` with nothing changed.
   */
  lemma DeleteEpicSpec(s: Store, id: int)
    requires Inv(s)
    ensures var (s', r) := DeleteEpic(s, id);
      Inv(s') && s'.tasks == s.tasks && s'.epics == s.epics - {id} && r == Find(s.epics, id) &&
      (id !in s.epics ==> s' == s) &&
      (id in s.epics ==>
        (forall k :: k in s'.subtasks <==> k in s.subtasks && k !in s.epics[id].subtaskIds) &&
        (forall k :: k in s'.subtasks ==> s'.subtasks[k] == s.subtasks[k]))
  {
    if id in s.epics {
      RemoveKeysSpec(s.subtasks, s.epics[id].subtaskIds);
    }
  }

  /**
   * `deleteSubtaskById` removes the subtask and keeps the tasks; an unknown
   * id changes nothing and returns `null`, and a subtask whose epic is
   * missing throws with the epics untouched.
   */
  lemma DeleteSubtaskSpec(s: Store, id: int)
    requires Inv(s)
    ensures var (s', r) := DeleteSubtask(s, id);
      Inv(s') && s'.tasks == s.tasks && s'.subtasks == s.subtasks - {id} &&
      (id !in s.subtasks ==> s' == s && r == Ok(None)) &&
      (id in s.subtasks && s.subtasks[id].epicId !in s.epics ==> r == Err(NullPointer) && s'.epics == s.epics)
  {
    if id in s.subtasks && s.subtasks[id].epicId in s.epics {
      var eid := s.subtasks[id].epicId;
      var e := RemoveSubtaskId(s.epics[eid], id);
      assert e.id == eid;
      var s2 := s.(subtasks := s.subtasks - {id}, epics := s.epics[eid := e]);
      assert Inv(s2);
      if e.subtaskIds != [] {
        var c := CalculateAndSetStatus(e, SubtasksByIds(s2.subtasks, e.subtaskIds));
        assert c.Some? ==> c.value.id == eid;
      }
    }
  }

  /**
   * With its epic present, the first occurrence of the subtask's id leaves
   * the epic's list; an epic left with none is deleted, and an epic left
   * with ids keeps every field but its status, which on success is what the
   * loop gives over the stored subtasks still listed. No other epic changes.
   */
  lemma DeleteSubtaskFromEpic(s: Store, id: int)
    requires Inv(s) && id in s.subtasks && s.subtasks[id].epicId in s.epics
    ensures var (s', r) := DeleteSubtask(s, id);
      var eid := s.subtasks[id].epicId;
      var left := RemoveSubtaskId(s.epics[eid], id);
      (left.subtaskIds == [] ==> s'.epics == s.epics - {eid} && r == Ok(Some(s.subtasks[id]))) &&
      (left.subtaskIds != [] ==>
        eid in s'.epics && s'.epics[eid].(status := left.status) == left &&
        (forall k :: k in s.epics && k != eid ==> s'.epics[k] == s.epics[k]) &&
        (r.Ok? ==>
          r == Ok(Some(s.subtasks[id])) &&
          Some(s'.epics[eid].status) == StatusBySubtasks(Statuses(SubtasksByIds(s'.subtasks, s'.epics[eid].subtaskIds)))) &&
        (r.Err? ==> s'.epics[eid] == left))
  {
    var eid := s.subtasks[id].epicId;
    var e := RemoveSubtaskId(s.epics[eid], id);
    assert e.id == eid;
    if e.subtaskIds != [] {
      DeleteSubtaskKeepsEpic(s, id);
    }
  }

  /** When the epic keeps ids, `deleteSubtaskById` writes back only that epic, with its status recomputed. */
  lemma DeleteSubtaskKeepsEpic(s: Store, id: int)
    requires Inv(s) && id in s.subtasks && s.subtasks[id].epicId in s.epics
    requires RemoveSubtaskId(s.epics[s.subtasks[id].epicId], id).subtaskIds != []
    ensures var (s', r) := DeleteSubtask(s, id);
      var eid := s.subtasks[id].epicId;
      var left := RemoveSubtaskId(s.epics[eid], id);
      eid in s'.epics && s'.epics[eid].(status := left.status) == left &&
      (forall k :: k in s.epics && k != eid ==> s'.epics[k] == s.epics[k]) &&
      (r.Ok? ==>
        r == Ok(Some(s.subtasks[id])) &&
        Some(s'.epics[eid].status) == StatusBySubtasks(Statuses(SubtasksByIds(s'.subtasks, s'.epics[eid].subtaskIds)))) &&
      (r.Err? ==> s'.epics[eid] == left)
  {
    var eid := s.subtasks[id].epicId;
    var e := RemoveSubtaskId(s.epics[eid], id);
    assert e.id == eid;
    var s2 := s.(subtasks := s.subtasks - {id}, epics := s.epics[eid := e]);
    match CalculateAndSetStatus(e, SubtasksByIds(s2.subtasks, e.subtaskIds))
    case None =>
      assert DeleteSubtask(s, id) == (s2, Err(NullPointer));
    case Some(e2) =>
      assert DeleteSubtask(s, id) == (s2.(epics := s2.epics[eid := e2]), Ok(Some(s.subtasks[id])));
  }
}
