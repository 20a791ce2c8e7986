/**
 * The manager of package `ru.yandex.practicum.task` (`task/TaskManager`):
 * three id-keyed maps and an id counter, updated in place. Each method is
 * proved to leave the state, and return the result, that the matching
 * `LegacyStore` function gives; a null-pointer exception is the `Err`
 * result, with the state as the Java code leaves it at the throw.
 */
module LegacyTaskManagers {
  import opened Wrappers
  import opened Failures
  import opened Seqs
  import opened TaskStatuses
  import opened LegacyTasks
  import LegacyEpics
  import LegacyStore

  class TaskManager {
    var tasks: map<int, Task>
    var epics: map<int, LegacyEpics.Epic>
    var subtasks: map<int, Subtask>
    var lastTaskId: int

    function State(): LegacyStore.Store
      reads this
    {
      LegacyStore.Store(tasks, epics, subtasks, lastTaskId)
    }

    ghost predicate Valid()
      reads this
    {
      LegacyStore.Inv(State())
    }

    constructor()
      ensures Valid() && State() == LegacyStore.Empty()
    {
      tasks, epics, subtasks, lastTaskId := map[], map[], map[], 0;
    }

    method CreateTask(task: Task) returns (r: Task)
      requires Valid()
      modifies this
      ensures Valid()
      ensures (State(), r) == LegacyStore.CreateTask(old(State()), task)
    {
      lastTaskId := lastTaskId + 1;
      r := task.(id := lastTaskId);
      tasks := tasks[r.id := r];
    }

    method CreateEpic(epic: LegacyEpics.Epic) returns (r: LegacyEpics.Epic)
      requires Valid()
      modifies this
      ensures Valid()
      ensures (State(), r) == LegacyStore.CreateEpic(old(State()), epic)
    {
      lastTaskId := lastTaskId + 1;
      r := epic.(id := lastTaskId);
      epics := epics[r.id := r];
    }

    method CreateSubtask(sub: Subtask) returns (r: Result<Subtask, Failure>)
      requires Valid()
      modifies this
      ensures Valid()
      ensures (State(), r) == LegacyStore.CreateSubtask(old(State()), sub)
    {
      lastTaskId := lastTaskId + 1;
      var t := sub.(id := lastTaskId);
      subtasks := subtasks[t.id := t];
      if t.epicId !in epics {
        r := Err(NullPointer);
      } else {
        var e := LegacyEpics.AddSubtaskId(epics[t.epicId], t.id);
        epics := epics[t.epicId := e];
        var subs := GetSubtasksByEpic(e);
        var ok := CalculateAndSetStatus(t.epicId, subs);
        r := if ok then Ok(t) else Err(NullPointer);
      }
      LegacyStore.CreateSubtaskSpec(old(State()), sub);
    }

    method UpdateTask(task: Task) returns (r: Option<Task>)
      requires Valid()
      modifies this`tasks
      ensures Valid()
      ensures (State(), r) == LegacyStore.UpdateTask(old(State()), task)
    {
      r := Find(tasks, task.id);
      tasks := tasks[task.id := task];
    }

    method UpdateEpic(epic: LegacyEpics.Epic) returns (r: Option<LegacyEpics.Epic>)
      requires Valid()
      modifies this`epics
      ensures Valid()
      ensures (State(), r) == LegacyStore.UpdateEpic(old(State()), epic)
    {
      r := Find(epics, epic.id);
      epics := epics[epic.id := epic];
    }

    method UpdateSubtask(sub: Subtask) returns (r: Result<Option<Subtask>, Failure>)
      requires Valid()
      modifies this
      ensures Valid()
      ensures (State(), r) == LegacyStore.UpdateSubtask(old(State()), sub)
    {
      if sub.epicId !in epics {
        r := Ok(None);
      } else {
        var previous := Find(subtasks, sub.id);
        subtasks := subtasks[sub.id := sub];
        var subs := GetSubtasksByEpic(epics[sub.epicId]);
        var ok := CalculateAndSetStatus(sub.epicId, subs);
        r := if ok then Ok(previous) else Err(NullPointer);
      }
      LegacyStore.UpdateSubtaskSpec(old(State()), sub);
    }

    /** `getAllTasks`: every stored task, once each, in iteration order. */
    function GetAllTasks(): (r: seq<Task>)
      reads this
      ensures forall k :: k in tasks ==> tasks[k] in r
      ensures forall x :: x in r ==> exists k :: k in tasks && tasks[k] == x
    {
      ValuesSpec(tasks);
      Values(tasks)
    }

    /** `getAllEpics`: every stored epic, once each, in iteration order. */
    function GetAllEpics(): (r: seq<LegacyEpics.Epic>)
      reads this
      ensures forall k :: k in epics ==> epics[k] in r
      ensures forall x :: x in r ==> exists k :: k in epics && epics[k] == x
    {
      ValuesSpec(epics);
      Values(epics)
    }

    /** `getAllSubtasks`: every stored subtask, once each, in iteration order. */
    function GetAllSubtasks(): (r: seq<Subtask>)
      reads this
      ensures forall k :: k in subtasks ==> subtasks[k] in r
      ensures forall x :: x in r ==> exists k :: k in subtasks && subtasks[k] == x
    {
      ValuesSpec(subtasks);
      Values(subtasks)
    }

    /** `getTaskById`: the stored task, or `null`. */
    function GetTaskById(id: int): (r: Option<Task>)
      reads this
      ensures r.Some? <==> id in tasks
      ensures r.Some? ==> r.value == tasks[id]
    {
      Find(tasks, id)
    }

    /** `getEpicById`: the stored epic, or `null`. */
    function GetEpicById(id: int): (r: Option<LegacyEpics.Epic>)
      reads this
      ensures r.Some? <==> id in epics
      ensures r.Some? ==> r.value == epics[id]
    {
      Find(epics, id)
    }

    /** `getSubtaskById`: the stored subtask, or `null`. */
    function GetSubtaskById(id: int): (r: Option<Subtask>)
      reads this
      ensures r.Some? <==> id in subtasks
      ensures r.Some? ==> r.value == subtasks[id]
    {
      Find(subtasks, id)
    }

    /** `deleteAllTasks`: clears the task map only. */
    method DeleteAllTasks()
      requires Valid()
      modifies this`tasks
      ensures Valid() && State() == old(State()).(tasks := map[])
    {
      tasks := map[];
    }

    /** `deleteAllEpics`: clears the epic map only; the subtasks stay. */
    method DeleteAllEpics()
      requires Valid()
      modifies this`epics
      ensures Valid() && State() == old(State()).(epics := map[])
    {
      epics := map[];
    }

    /** `deleteAllSubtasks`: clears the subtask map only; the epics keep listing the ids. */
    method DeleteAllSubtasks()
      requires Valid()
      modifies this`subtasks
      ensures Valid() && State() == old(State()).(subtasks := map[])
    {
      subtasks := map[];
    }

    method DeleteTaskById(id: int) returns (r: Option<Task>)
      requires Valid()
      modifies this`tasks
      ensures Valid()
      ensures (State(), r) == LegacyStore.DeleteTask(old(State()), id)
    {
      r := Find(tasks, id);
      tasks := tasks - {id};
    }

    method DeleteEpicById(id: int) returns (r: Option<LegacyEpics.Epic>)
      requires Valid()
      modifies this
      ensures Valid()
      ensures (State(), r) == LegacyStore.DeleteEpic(old(State()), id)
    {
      r := Find(epics, id);
      if r.Some? {
        epics := epics - {id};
        var ids := r.value.subtaskIds;
        var i := 0;
        while i < |ids|
          invariant 0 <= i <= |ids|
          invariant subtasks == RemoveKeys(old(subtasks), ids[..i])
          invariant epics == old(epics) - {id} && tasks == old(tasks) && lastTaskId == old(lastTaskId)
        {
          assert ids[..i + 1][..i] == ids[..i];
          subtasks := subtasks - {ids[i]};
          i := i + 1;
        }
        assert ids[..i] == ids;
      }
      LegacyStore.DeleteEpicSpec(old(State()), id);
    }

    method DeleteSubtaskById(id: int) returns (r: Result<Option<Subtask>, Failure>)
      requires Valid()
      modifies this
      ensures Valid()
      ensures (State(), r) == LegacyStore.DeleteSubtask(old(State()), id)
    {
      var removed := Find(subtasks, id);
      subtasks := subtasks - {id};
      if removed.None? {
        r := Ok(None);
      } else if removed.value.epicId !in epics {
        r := Err(NullPointer);
      } else {
        var eid := removed.value.epicId;
        var e := LegacyEpics.RemoveSubtaskId(epics[eid], removed.value.id);
        epics := epics[eid := e];
        if e.subtaskIds == [] {
          epics := epics - {e.id};
          r := Ok(removed);
        } else {
          var subs := GetSubtasksByEpic(e);
          var ok := CalculateAndSetStatus(eid, subs);
          r := if ok then Ok(removed) else Err(NullPointer);
        }
      }
      LegacyStore.DeleteSubtaskSpec(old(State()), id);
    }

    /** `getSubtasksByEpic`: each listed id looked up in turn, `null` for one not stored. */
    method GetSubtasksByEpic(e: LegacyEpics.Epic) returns (r: seq<Option<Subtask>>)
      ensures r == LegacyStore.SubtasksByIds(subtasks, e.subtaskIds)
    {
      r := [];
      var i := 0;
      while i < |e.subtaskIds|
        invariant 0 <= i <= |e.subtaskIds|
        invariant r == LegacyStore.SubtasksByIds(subtasks, e.subtaskIds[..i])
      {
        r := r + [Find(subtasks, e.subtaskIds[i])];
        i := i + 1;
      }
      assert e.subtaskIds[..i] == e.subtaskIds;
    }

    /**
     * `epic.calculateAndSetStatus(subtasks)` on the epic stored under `eid`:
     * `ok` is false where the status loop throws, and then nothing changed.
     */
    method CalculateAndSetStatus(eid: int, subs: seq<Option<Subtask>>) returns (ok: bool)
      requires eid in epics
      modifies this`epics
      ensures var c := LegacyEpics.CalculateAndSetStatus(old(epics)[eid], subs);
        ok == c.Some? && epics == if ok then old(epics)[eid := c.value] else old(epics)
    {
      var st := GetStatusBySubtasks(LegacyEpics.Statuses(subs));
      ok := st.Some?;
      if ok {
        epics := epics[eid := epics[eid].(status := st.value)];
      }
    }
  }
}

/**
 * The manager of the same package behind the `TaskManager` interface
 * (`task/InMemoryTaskManager`). Its maps and operations are those of
 * `task/TaskManager` line for line; what it adds is the history: the
 * three lookups feed every hit to an `InMemoryHistoryManager`.
 */
module LegacyInMemoryTaskManagers {
  import opened Wrappers
  import opened LegacyTasks
  import LegacyEpics
  import LegacyStore
  import opened Seqs
  import opened LegacyHistoryManagers
  import opened LegacyTaskManagers

  class InMemoryTaskManager {
    /** The maps, the counter and every operation but the lookups. */
    const manager: TaskManager
    const historyManager: InMemoryHistoryManager<LegacyStore.Entry>

    ghost predicate Valid()
      reads this, manager, historyManager
    {
      manager.Valid() && historyManager.Valid()
    }

    constructor()
      ensures Valid() && fresh(manager) && fresh(historyManager)
      ensures manager.State() == LegacyStore.Empty() && historyManager.entries == []
    {
      manager := new TaskManager();
      historyManager := new InMemoryHistoryManager();
    }

    /** `getTask`: the stored task or `null`; a hit is added to the history. */
    method GetTask(id: int) returns (r: Option<Task>)
      requires Valid()
      modifies historyManager
      ensures Valid() && r == Find(manager.tasks, id)
      ensures historyManager.entries ==
        if r.Some? then Push(old(historyManager.entries), LegacyStore.TaskEntry(r.value)) else old(historyManager.entries)
    {
      r := Find(manager.tasks, id);
      if r.Some? {
        historyManager.Add(LegacyStore.TaskEntry(r.value));
      }
    }

    /** `getEpic`: the stored epic or `null`; a hit is added to the history. */
    method GetEpic(id: int) returns (r: Option<LegacyEpics.Epic>)
      requires Valid()
      modifies historyManager
      ensures Valid() && r == Find(manager.epics, id)
      ensures historyManager.entries ==
        if r.Some? then Push(old(historyManager.entries), LegacyStore.EpicEntry(r.value)) else old(historyManager.entries)
    {
      r := Find(manager.epics, id);
      if r.Some? {
        historyManager.Add(LegacyStore.EpicEntry(r.value));
      }
    }

    /** `getSubtask`: the stored subtask or `null`; a hit is added to the history. */
    method GetSubtask(id: int) returns (r: Option<Subtask>)
      requires Valid()
      modifies historyManager
      ensures Valid() && r == Find(manager.subtasks, id)
      ensures historyManager.entries ==
        if r.Some? then Push(old(historyManager.entries), LegacyStore.SubtaskEntry(r.value)) else old(historyManager.entries)
    {
      r := Find(manager.subtasks, id);
      if r.Some? {
        historyManager.Add(LegacyStore.SubtaskEntry(r.value));
      }
    }

    /** `getHistory`: the history tracker's list, oldest first, at most ten entries. */
    method GetHistory() returns (r: seq<LegacyStore.Entry>)
      requires Valid()
      ensures r == historyManager.entries && |r| <= Capacity
    {
      r := historyManager.GetHistory();
    }
  }
}
