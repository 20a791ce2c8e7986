/**
 * `managers/InMemoryTaskManager`: three id-keyed maps, the priority index,
 * the id counter and a history tracker, updated call by call. Each method
 * leaves the manager in the state, and returns the result, that the
 * matching `TaskStore` function gives for the state before the call.
 */
module InMemoryTaskManagers {
  import opened Wrappers
  import opened Failures
  import opened Seqs
  import opened Tasks
  import EpicState
  import opened TaskManagerUtil
  import opened PriorityIndex
  import opened HistoryManagers
  import opened TaskStore
  import opened TaskStoreFacts

  class InMemoryTaskManager {
    var tasks: map<int, Item>
    var epics: map<int, Item>
    var subtasks: map<int, Item>
    /** The `TreeSet` keyed by start time, as the sequence it iterates in. */
    var prioritized: seq<Item>
    var lastTaskId: int
    /**
     * What the history tracker holds, oldest first: the manager reaches it
     * only through `add` and `remove`, whose effect is `Record` and `Without`.
     */
    var history: seq<Item>

    /** The manager's contents as a store value. */
    ghost function State(): Store
      reads this
    {
      Store(tasks, epics, subtasks, prioritized, lastTaskId, history)
    }

    /** The manager keeps the store invariant. */
    ghost predicate Valid()
      reads this
    {
      Inv(State())
    }

    constructor()
      ensures Valid() && State() == Empty()
    {
      tasks, epics, subtasks := map[], map[], map[];
      prioritized := [];
      lastTaskId := 0;
      history := [];
    }

    /** `isTimeIntersected` against the current index, as the exception it leads to. */
    method CheckTimeOf(task: Item) returns (r: Outcome)
      requires Valid()
      ensures r == CheckTime(State(), task)
      ensures task.startTime.Some? ==> (r.Fail? <==>
        exists i :: 0 <= i < |prioritized| && !Equal(task, prioritized[i]) &&
          IsIntersectedByTime(prioritized[i], task) == Some(true))
    {
      if task.startTime.Some? {
        CheckTimeSpec(State(), task);
      }
      match IsTimeIntersected(task, prioritized)
      case None => r := Fail(NullPointer);
      case Some(hit) => r := if hit then Fail(TimeIntersected(task.id)) else Pass;
    }

    method CreateTask(task: Item) returns (r: Result<Item, Failure>)
      requires Valid()
      modifies this
      ensures Valid()
      ensures (State(), r) == TaskStore.CreateTask(old(State()), task)
    {
      var check := CheckTimeOf(task);
      if check.Fail? {
        r := Err(check.failure);
      } else {
        lastTaskId := lastTaskId + 1;
        var t := WithId(task, lastTaskId);
        var copy := GetCopyTask(t);
        tasks := tasks[copy.id := copy];
        if copy.startTime.Some? {
          prioritized := Add(prioritized, copy);
        }
        r := Ok(t);
      }
      CreateTaskSpec(old(State()), task);
    }

    method CreateEpic(epic: Item) returns (r: Item)
      requires Valid() && epic.Epic?
      modifies this
      ensures Valid()
      ensures (State(), r) == TaskStore.CreateEpic(old(State()), epic)
    {
      CreateEpicSpec(State(), epic);
      lastTaskId := lastTaskId + 1;
      r := WithId(epic, lastTaskId);
      var copy := GetCopyTask(r);
      epics := epics[copy.id := copy];
    }

    method CreateSubtask(sub: Item) returns (r: Result<Item, Failure>)
      requires Valid() && sub.Subtask?
      modifies this
      ensures Valid()
      ensures (State(), r) == TaskStore.CreateSubtask(old(State()), sub)
    {
      var check := CheckTimeOf(sub);
      if check.Fail? {
        r := Err(check.failure);
      } else {
        lastTaskId := lastTaskId + 1;
        var t := WithId(sub, lastTaskId);
        var copy := GetCopyTask(t);
        subtasks := subtasks[copy.id := copy];
        if copy.startTime.Some? {
          prioritized := Add(prioritized, copy);
        }
        if t.epicId !in epics {
          r := Err(NullPointer);
        } else {
          var e := epics[t.epicId];
          e := e.(subtaskIds := EpicState.AddSubtaskId(e.subtaskIds, copy.id));
          var ok;
          e, ok := RecalculateEpic(e);
          epics := epics[t.epicId := e];
          r := if ok then Ok(t) else Err(NullPointer);
        }
      }
      CreateSubtaskSpec(old(State()), sub);
    }

    /** `epic.calculateState(getSubtasksByEpic(epic))` on an epic value. */
    method RecalculateEpic(e: Item) returns (e2: Item, ok: bool)
      requires e.Epic?
      ensures (e2, ok) == EpicState.CalculateState(e, SubtasksByIds(subtasks, e.subtaskIds))
      ensures e2.Epic? && e2.id == e.id && e2.subtaskIds == e.subtaskIds
    {
      EpicState.CalculateStateFrame(e, SubtasksByIds(subtasks, e.subtaskIds));
      var subs := SubtasksByIds(subtasks, e.subtaskIds);
      e2, ok := EpicState.CalculateState(e, subs).0, EpicState.CalculateState(e, subs).1;
    }

    method UpdateTask(task: Item) returns (r: Result<Item, Failure>)
      requires Valid()
      modifies this
      ensures Valid()
      ensures (State(), r) == TaskStore.UpdateTask(old(State()), task)
    {
      var check := CheckTimeOf(task);
      if check.Fail? {
        r := Err(check.failure);
      } else {
        match UpdateOrRemove(prioritized, task)
        case Err(f) =>
          r := Err(f);
        case Ok(idx) =>
          prioritized := idx;
          var copy := GetCopyTask(task);
          tasks := tasks[copy.id := copy];
          r := Ok(task);
      }
      UpdateTaskSpec(old(State()), task);
    }

    /**
     * `updateEpic`: the loop over the subtask map adds each subtask naming
     * the epic to both the caller's epic and the fresh copy.
     */
    method UpdateEpic(epic: Item) returns (r: Result<Item, Failure>)
      requires Valid() && epic.Epic?
      modifies this`epics
      ensures Valid()
      ensures (State(), r) == TaskStore.UpdateEpic(old(State()), epic)
    {
      var copy := GetCopyTask(epic);
      var caller, stored := epic, copy;
      var ids := SortedIds(subtasks.Keys);
      ghost var children := [];
      var i := 0;
      while i < |ids|
        invariant 0 <= i <= |ids| && unchanged(this)
        invariant children == ChildIds(subtasks, ids[..i], copy.id)
        invariant caller == epic.(subtaskIds := AddAll(epic.subtaskIds, children))
        invariant stored == copy.(subtaskIds := AddAll(copy.subtaskIds, children))
      {
        var k := ids[i];
        ChildIdsStep(subtasks, ids, i, copy.id);
        if k in subtasks && subtasks[k].Subtask? && subtasks[k].epicId == copy.id {
          AddAllStep(epic.subtaskIds, children, k);
          AddAllStep(copy.subtaskIds, children, k);
          caller := caller.(subtaskIds := EpicState.AddSubtaskId(caller.subtaskIds, k));
          stored := stored.(subtaskIds := EpicState.AddSubtaskId(stored.subtaskIds, k));
          children := children + [k];
        }
        i := i + 1;
      }
      assert ids[..i] == ids;
      r := PutRecalculated(caller, stored);
    }

    /**
     * The end of `updateEpic`: both epic objects are recomputed from the
     * subtasks the copy lists; the first failure aborts, otherwise the copy
     * is stored and the caller's object returned.
     */
    method PutRecalculated(caller: Item, stored: Item) returns (r: Result<Item, Failure>)
      requires Valid() && caller.Epic? && stored.Epic?
      modifies this`epics
      ensures Valid()
      ensures (State(), r) == TaskStore.PutRecalculated(old(State()), caller, stored, SubtasksByIds(subtasks, stored.subtaskIds))
    {
      var subs := SubtasksByIds(subtasks, stored.subtaskIds);
      PutRecalculatedFrame(State(), caller, stored, subs);
      var c2, ok1 := EpicState.CalculateState(caller, subs).0, EpicState.CalculateState(caller, subs).1;
      if !ok1 {
        return Err(NullPointer);
      }
      var e2, ok2 := EpicState.CalculateState(stored, subs).0, EpicState.CalculateState(stored, subs).1;
      if !ok2 {
        return Err(NullPointer);
      }
      epics := epics[stored.id := e2];
      r := Ok(c2);
    }

    method UpdateSubtask(sub: Item) returns (r: Result<Option<Item>, Failure>)
      requires Valid() && sub.Subtask?
      modifies this
      ensures Valid()
      ensures (State(), r) == TaskStore.UpdateSubtask(old(State()), sub)
    {
      var check := CheckTimeOf(sub);
      if check.Fail? {
        r := Err(check.failure);
      } else if sub.epicId !in epics {
        r := Ok(None);
      } else {
        match UpdateOrRemove(prioritized, sub)
        case Err(f) =>
          r := Err(f);
        case Ok(idx) =>
          prioritized := idx;
          var copy := GetCopyTask(sub);
          subtasks := subtasks[copy.id := copy];
          var e, ok := RecalculateEpic(epics[sub.epicId]);
          epics := epics[sub.epicId := e];
          r := if ok then Ok(Some(sub)) else Err(NullPointer);
      }
      UpdateSubtaskSpec(old(State()), sub);
    }

    /** `getAllTasks`: every stored task, once each, in iteration order. */
    function GetAllTasks(): (r: seq<Item>)
      reads this
      ensures forall k :: k in tasks ==> tasks[k] in r
      ensures forall x :: x in r ==> exists k :: k in tasks && tasks[k] == x
    {
      ValuesSpec(tasks);
      Values(tasks)
    }

    /** `getAllEpics`: every stored epic, once each, in iteration order. */
    function GetAllEpics(): (r: seq<Item>)
      reads this
      ensures forall k :: k in epics ==> epics[k] in r
      ensures forall x :: x in r ==> exists k :: k in epics && epics[k] == x
    {
      ValuesSpec(epics);
      Values(epics)
    }

    /** `getAllSubtasks`: every stored subtask, once each, in iteration order. */
    function GetAllSubtasks(): (r: seq<Item>)
      reads this
      ensures forall k :: k in subtasks ==> subtasks[k] in r
      ensures forall x :: x in r ==> exists k :: k in subtasks && subtasks[k] == x
    {
      ValuesSpec(subtasks);
      Values(subtasks)
    }

    /** `getTask`, `getEpic`, `getSubtask` on one of the maps: a hit is fed to the history. */
    method GetFrom(m: map<int, Item>, id: int) returns (r: Result<Item, Failure>)
      requires Valid() && KeyedById(m)
      modifies this`history
      ensures Valid()
      ensures (State(), r) == Get(old(State()), m, id)
    {
      GetKeepsInv(State(), m, id);
      if id !in m {
        return Err(NotFound(id));
      }
      history := Record(history, m[id]);
      r := Ok(m[id]);
    }

    method GetTask(id: int) returns (r: Result<Item, Failure>)
      requires Valid()
      modifies this`history
      ensures Valid()
      ensures (State(), r) == Get(old(State()), old(tasks), id)
    {
      r := GetFrom(tasks, id);
    }

    method GetEpic(id: int) returns (r: Result<Item, Failure>)
      requires Valid()
      modifies this`history
      ensures Valid()
      ensures (State(), r) == Get(old(State()), old(epics), id)
    {
      r := GetFrom(epics, id);
    }

    method GetSubtask(id: int) returns (r: Result<Item, Failure>)
      requires Valid()
      modifies this`history
      ensures Valid()
      ensures (State(), r) == Get(old(State()), old(subtasks), id)
    {
      r := GetFrom(subtasks, id);
    }

    method DeleteAllTasks() returns (r: Outcome)
      requires Valid()
      modifies this
      ensures Valid()
      ensures (State(), r) == TaskStore.DeleteAllTasks(old(State()))
    {
      DeleteAllTasksSpec(State());
      var idx, out := RemoveAll(prioritized, Values(tasks)).0, RemoveAll(prioritized, Values(tasks)).1;
      prioritized := idx;
      if out.Fail? {
        return out;
      }
      tasks := map[];
      r := Pass;
    }

    method DeleteAllSubtasks() returns (r: Outcome)
      requires Valid()
      modifies this
      ensures Valid()
      ensures (State(), r) == TaskStore.DeleteAllSubtasks(old(State()))
    {
      DeleteAllSubtasksSpec(State());
      var idx, out := RemoveAll(prioritized, Values(subtasks)).0, RemoveAll(prioritized, Values(subtasks)).1;
      prioritized := idx;
      if out.Fail? {
        return out;
      }
      subtasks := map[];
      r := Pass;
    }

    method DeleteAllEpics() returns (r: Outcome)
      requires Valid()
      modifies this
      ensures Valid()
      ensures (State(), r) == TaskStore.DeleteAllEpics(old(State()))
    {
      r := DeleteAllSubtasks();
      if r.Fail? {
        return;
      }
      epics := map[];
    }

    method DeleteTask(id: int) returns (r: Result<Item, Failure>)
      requires Valid()
      modifies this
      ensures Valid()
      ensures (State(), r) == TaskStore.DeleteTask(old(State()), id)
    {
      DeleteTaskSpec(State(), id);
      prioritized := RemoveId(prioritized, id);
      history := Without(history, id);
      if id !in tasks {
        return Err(NotFound(id));
      }
      r := Ok(tasks[id]);
      tasks := tasks - {id};
    }

    /** `deleteEpic`: the epic goes, then the loop over its listed subtask ids. */
    method DeleteEpic(id: int) returns (r: Result<Item, Failure>)
      requires Valid()
      modifies this
      ensures Valid()
      ensures (State(), r) == TaskStore.DeleteEpic(old(State()), id)
    {
      if id !in epics {
        return Err(NotFound(id));
      }
      var e := epics[id];
      epics := epics - {id};
      history := Without(history, id);
      ghost var s1 := State();
      var ids := e.subtaskIds;
      var i := 0;
      while i < |ids|
        invariant 0 <= i <= |ids|
        invariant State() == DropSubtasks(s1, ids[..i])
      {
        var sid := ids[i];
        assert ids[..i + 1][..i] == ids[..i];
        prioritized := RemoveId(prioritized, sid);
        history := Without(history, sid);
        subtasks := subtasks - {sid};
        i := i + 1;
      }
      assert ids[..i] == ids;
      DeleteEpicSpec(old(State()), id);
      r := Ok(e);
    }

    /** `deleteSubtask`: the subtask goes, then its epic loses the id and is deleted or recomputed. */
    method DeleteSubtask(id: int) returns (r: Result<Item, Failure>)
      requires Valid()
      modifies this
      ensures Valid()
      ensures (State(), r) == TaskStore.DeleteSubtask(old(State()), id)
    {
      if id !in subtasks {
        r := Err(NotFound(id));
      } else {
        var removed := subtasks[id];
        subtasks := subtasks - {id};
        prioritized := RemoveId(prioritized, id);
        history := Without(history, id);
        if removed.epicId !in epics {
          r := Err(NullPointer);
        } else {
          var e := epics[removed.epicId];
          e := e.(subtaskIds := EpicState.RemoveSubtaskId(e.subtaskIds, removed.id));
          if e.subtaskIds == [] {
            epics := epics[removed.epicId := e];
            history := Without(history, e.id);
            epics := epics - {e.id};
            r := Ok(removed);
          } else {
            var ok;
            e, ok := RecalculateEpic(e);
            epics := epics[removed.epicId := e];
            r := if ok then Ok(removed) else Err(NullPointer);
          }
        }
      }
      DeleteSubtaskSpec(old(State()), id);
    }

    /** `getHistory`: the tracker's entries, oldest first. */
    method GetHistory() returns (r: seq<Item>)
      requires Valid()
      ensures r == State().history && UniqueIds(r)
    {
      r := history;
    }

    /** `getPrioritizedTasks`: the index, which holds only timed tasks and subtasks. */
    function GetPrioritizedTasks(): (r: seq<Item>)
      reads this
      requires Valid()
      ensures forall i :: 0 <= i < |r| ==> r[i].startTime.Some? && !r[i].Epic?
    {
      prioritized
    }
  }
}
