/**
 * The epic of package `ru.yandex.practicum` (`Epic`): it holds the subtask
 * objects themselves and recomputes its status on every add, update and
 * remove. `List.remove(Object)` finds a subtask by `equals`; the `Task` class
 * that defines it is not part of this model, and equality is taken to be
 * equality of ids, as in the later `Task` class.
 */
module OldestEpics {
  import opened TaskStatuses
  import opened LegacyTasks

  datatype Epic = Epic(id: int, name: string, description: string, status: Status, subtasks: seq<Subtask>)

  /** The statuses of the subtasks, in list order. */
  function StatusesOf(subs: seq<Subtask>): (r: seq<Status>)
    ensures |r| == |subs| && forall i :: 0 <= i < |subs| ==> r[i] == subs[i].status
  {
    seq(|subs|, i requires 0 <= i < |subs| => subs[i].status)
  }

  /** The ids of the subtasks, in list order. */
  function IdsOf(subs: seq<Subtask>): (r: seq<int>)
    ensures |r| == |subs| && forall i :: 0 <= i < |subs| ==> r[i] == subs[i].id
  {
    seq(|subs|, i requires 0 <= i < |subs| => subs[i].id)
  }

  /**
   * `getStatusBySubtasks`: NEW for none, IN_PROGRESS if any is, DONE if all
   * are, otherwise NEW.
   */
  function StatusOf(subs: seq<Subtask>): (r: Status)
    ensures subs == [] ==> r == NEW
    ensures r == IN_PROGRESS <==> exists i :: 0 <= i < |subs| && subs[i].status == IN_PROGRESS
    ensures r == DONE <==> subs != [] && forall i :: 0 <= i < |subs| ==> subs[i].status == DONE
  {
    RuleOverSubtasks(subs);
    Rule(StatusesOf(subs))
  }

  /** The rule's cases read on the subtasks themselves. */
  lemma RuleOverSubtasks(subs: seq<Subtask>)
    ensures var r := Rule(StatusesOf(subs));
      (r == IN_PROGRESS <==> exists i :: 0 <= i < |subs| && subs[i].status == IN_PROGRESS) &&
      (r == DONE <==> subs != [] && forall i :: 0 <= i < |subs| ==> subs[i].status == DONE)
  {
    var sts := StatusesOf(subs);
    if IN_PROGRESS in sts {
      var i :| 0 <= i < |sts| && sts[i] == IN_PROGRESS;
      assert subs[i].status == IN_PROGRESS;
    }
    if subs != [] && forall i :: 0 <= i < |subs| ==> subs[i].status == DONE {
      assert forall s :: s in sts ==> s == DONE;
    }
    if Rule(sts) == DONE {
      forall i | 0 <= i < |subs| ensures subs[i].status == DONE {
        assert sts[i] in sts;
      }
    }
  }

  /** The stored status is the one the subtasks give. */
  ghost predicate StatusCurrent(e: Epic)
  {
    e.status == StatusOf(e.subtasks)
  }

  /** The position of the first subtask with the id, or the length when there is none. */
  function FirstWithId(subs: seq<Subtask>, id: int): (k: nat)
    ensures k <= |subs|
    ensures k < |subs| ==> subs[k].id == id
    ensures forall j :: 0 <= j < k ==> subs[j].id != id
  {
    if subs == [] then 0
    else if subs[0].id == id then 0
    else 1 + FirstWithId(subs[1..], id)
  }

  /** `List.remove(Object)` under equality of ids: the first such subtask goes. */
  function RemoveWithId(subs: seq<Subtask>, id: int): (r: seq<Subtask>)
  {
    if subs == [] then []
    else if subs[0].id == id then subs[1..]
    else [subs[0]] + RemoveWithId(subs[1..], id)
  }

  /** Removal cuts the list at the first subtask with the id, and changes nothing without one. */
  lemma {:induction false} RemoveWithIdCuts(subs: seq<Subtask>, id: int)
    ensures var k := FirstWithId(subs, id);
      RemoveWithId(subs, id) == if k == |subs| then subs else subs[..k] + subs[k + 1..]
  {
    if subs != [] && subs[0].id != id {
      RemoveWithIdCuts(subs[1..], id);
      var k := FirstWithId(subs[1..], id);
      if k < |subs[1..]| {
        assert [subs[0]] + subs[1..][..k] == subs[..k + 1];
        assert subs[1..][k + 1..] == subs[k + 2..];
      }
    }
  }

  /** `addSubtask`: append the subtask, then recompute the status. */
  function AddSubtask(e: Epic, s: Subtask): (r: Epic)
    ensures r.subtasks == e.subtasks + [s] && StatusCurrent(r)
    ensures r.(status := e.status, subtasks := e.subtasks) == e
  {
    e.(subtasks := e.subtasks + [s], status := StatusOf(e.subtasks + [s]))
  }

  /**
   * `updateSubtask`: when a subtask with the id is held, take the first one
   * out, append the new one, and recompute the status; otherwise nothing.
   */
  function UpdateSubtask(e: Epic, s: Subtask): (r: Epic)
  {
    if FirstWithId(e.subtasks, s.id) == |e.subtasks| then e
    else
      var subs := RemoveWithId(e.subtasks, s.id) + [s];
      e.(subtasks := subs, status := StatusOf(subs))
  }

  /** `removeSubtask`: take out the first subtask with the id, and recompute the status either way. */
  function RemoveSubtask(e: Epic, s: Subtask): (r: Epic)
  {
    var subs := RemoveWithId(e.subtasks, s.id);
    e.(subtasks := subs, status := StatusOf(subs))
  }

  /**
   * An update replaces the first subtask with the id by the new one, moved
   * to the end, keeps the count, and leaves the status current; with no
   * such subtask the epic is unchanged.
   */
  lemma UpdateSubtaskReplaces(e: Epic, s: Subtask)
    ensures var r := UpdateSubtask(e, s);
      var k := FirstWithId(e.subtasks, s.id);
      r.id == e.id && r.name == e.name && r.description == e.description &&
      (k == |e.subtasks| ==> r == e) &&
      (k < |e.subtasks| ==>
        r.subtasks == e.subtasks[..k] + e.subtasks[k + 1..] + [s] &&
        |r.subtasks| == |e.subtasks| && StatusCurrent(r))
  {
    RemoveWithIdCuts(e.subtasks, s.id);
  }

  /**
   * A removal takes out the first subtask with the id, or none, and always
   * leaves the status current: an epic whose status was stale gets the
   * computed one even when nothing is removed.
   */
  lemma RemoveSubtaskTakesFirst(e: Epic, s: Subtask)
    ensures var r := RemoveSubtask(e, s);
      var k := FirstWithId(e.subtasks, s.id);
      StatusCurrent(r) && r.(status := e.status, subtasks := e.subtasks) == e &&
      (k == |e.subtasks| ==> r.subtasks == e.subtasks) &&
      (k < |e.subtasks| ==> r.subtasks == e.subtasks[..k] + e.subtasks[k + 1..])
  {
    RemoveWithIdCuts(e.subtasks, s.id);
  }

  /** Removing the only subtask leaves an empty epic whose status is NEW. */
  lemma RemovingLastGivesNew(e: Epic, s: Subtask)
    requires |e.subtasks| == 1 && e.subtasks[0].id == s.id
    ensures RemoveSubtask(e, s).subtasks == [] && RemoveSubtask(e, s).status == NEW
  {
  }
}

/** The `Epic` object, whose methods update its list and status in place. */
module OldestEpicObjects {
  import opened Wrappers
  import opened TaskStatuses
  import opened LegacyTasks
  import OldestEpics

  class EpicObject {
    var id: int
    var name: string
    var description: string
    var status: Status
    var subtasks: seq<Subtask>

    function Value(): OldestEpics.Epic
      reads this
    {
      OldestEpics.Epic(id, name, description, status, subtasks)
    }

    /** The three-argument constructor: id 0 and no subtasks. */
    constructor(name: string, description: string, status: Status)
      ensures Value() == OldestEpics.Epic(0, name, description, status, [])
    {
      this.id := 0;
      this.name, this.description, this.status := name, description, status;
      this.subtasks := [];
    }

    method AddSubtask(s: Subtask)
      modifies this`subtasks, this`status
      ensures Value() == OldestEpics.AddSubtask(old(Value()), s)
    {
      subtasks := subtasks + [s];
      status := GetStatusBySubtasks();
    }

    method UpdateSubtask(s: Subtask)
      modifies this`subtasks, this`status
      ensures Value() == OldestEpics.UpdateSubtask(old(Value()), s)
    {
      if OldestEpics.FirstWithId(subtasks, s.id) < |subtasks| {
        subtasks := OldestEpics.RemoveWithId(subtasks, s.id) + [s];
        status := GetStatusBySubtasks();
      }
    }

    method RemoveSubtask(s: Subtask)
      modifies this`subtasks, this`status
      ensures Value() == OldestEpics.RemoveSubtask(old(Value()), s)
    {
      subtasks := OldestEpics.RemoveWithId(subtasks, s.id);
      status := GetStatusBySubtasks();
    }

    /** The `setStatus` override: the argument is ignored and nothing changes. */
    method SetStatus(status: Status)
      ensures Value() == old(Value())
    {
    }

    /** The status loop over the held subtasks, which are never null. */
    method GetStatusBySubtasks() returns (r: Status)
      ensures r == OldestEpics.StatusOf(subtasks)
    {
      var sts := OldestEpics.StatusesOf(subtasks);
      var st := TaskStatuses.GetStatusBySubtasks(Lift(sts));
      StatusMatchesRule(sts);
      r := st.value;
    }
  }
}

/**
 * The state of the manager of package `ru.yandex.practicum`
 * (`TaskManager`) as a value, and the operations that do more than one map
 * update as functions. A missing epic where the code dereferences it is a
 * null pointer, with the state as the code leaves it at the throw.
 */
module OldestStore {
  import opened Wrappers
  import opened Failures
  import opened Seqs
  import opened LegacyTasks
  import opened OldestEpics

  datatype Store = Store(tasks: map<int, Task>, epics: map<int, Epic>, subtasks: map<int, Subtask>, lastTaskId: int)

  /** Every item is stored under its own id. */
  ghost predicate Inv(s: Store)
  {
    (forall k :: k in s.tasks ==> s.tasks[k].id == k) &&
    (forall k :: k in s.epics ==> s.epics[k].id == k) &&
    (forall k :: k in s.subtasks ==> s.subtasks[k].id == k)
  }

  /**
   * `createSubtask`: store the subtask under the next id, then add it to its
   * epic; a missing epic throws after the subtask is stored.
   */
  function CreateSubtask(s: Store, sub: Subtask): (r: (Store, Result<Subtask, Failure>))
  {
    var t := sub.(id := s.lastTaskId + 1);
    var s1 := s.(subtasks := s.subtasks[t.id := t], lastTaskId := t.id);
    if t.epicId !in s.epics then (s1, Err(NullPointer))
    else (s1.(epics := s.epics[t.epicId := AddSubtask(s.epics[t.epicId], t)]), Ok(t))
  }

  /**
   * `updateSubtask`: the epic, when present, updates its copy; the subtask
   * is put in any case and the previous value returned.
   */
  function UpdateSubtask(s: Store, sub: Subtask): (r: (Store, Option<Subtask>))
  {
    var epics := if sub.epicId in s.epics then s.epics[sub.epicId := OldestEpics.UpdateSubtask(s.epics[sub.epicId], sub)] else s.epics;
    (s.(epics := epics, subtasks := s.subtasks[sub.id := sub]), Find(s.subtasks, sub.id))
  }

  /** `deleteEpicById`: remove the epic's subtasks by their ids, then the epic. */
  function DeleteEpic(s: Store, id: int): (r: (Store, Option<Epic>))
  {
    if id !in s.epics then (s, None)
    else (s.(epics := s.epics - {id}, subtasks := RemoveKeys(s.subtasks, IdsOf(s.epics[id].subtasks))), Some(s.epics[id]))
  }

  /**
   * `deleteSubtaskById`: take the subtask out of its epic (a missing epic
   * throws before anything is removed), delete an epic left empty, then
   * remove the subtask and return it.
   */
  function DeleteSubtask(s: Store, id: int): (r: (Store, Result<Option<Subtask>, Failure>))
  {
    if id !in s.subtasks then (s, Ok(None))
    else
      var sub := s.subtasks[id];
      if sub.epicId !in s.epics then (s, Err(NullPointer))
      else
        var e := RemoveSubtask(s.epics[sub.epicId], sub);
        var epics := s.epics[sub.epicId := e];
        var epics' := if e.subtasks == [] then epics - {e.id} else epics;
        (s.(epics := epics', subtasks := s.subtasks - {id}), Ok(Some(sub)))
  }

  /**
   * `createSubtask` stores the subtask under the next id and, with the epic
   * present, appends it to the epic and leaves the epic's status current;
   * with the epic missing it throws and no epic changes. No other epic
   * changes either way.
   */
  lemma CreateSubtaskSpec(s: Store, sub: Subtask)
    requires Inv(s)
    ensures var (s', r) := CreateSubtask(s, sub);
      var id := s.lastTaskId + 1;
      Inv(s') && s'.lastTaskId == id && s'.subtasks == s.subtasks[id := sub.(id := id)] &&
      s'.tasks == s.tasks && s'.epics.Keys == s.epics.Keys &&
      (forall k :: k in s.epics && k != sub.epicId ==> s'.epics[k] == s.epics[k]) &&
      (sub.epicId !in s.epics ==> r == Err(NullPointer) && s'.epics == s.epics) &&
      (sub.epicId in s.epics ==>
        r == Ok(sub.(id := id)) &&
        s'.epics[sub.epicId].subtasks == s.epics[sub.epicId].subtasks + [sub.(id := id)] &&
        StatusCurrent(s'.epics[sub.epicId]))
  {
  }

  /**
   * `updateSubtask` puts the subtask even when its epic is missing, returns
   * the old value or `null`, and changes no epic but its own. That epic
   * changes only when it holds a subtask with the id: the first such one
   * leaves, the new one goes at the end, and the status is current.
   */
  lemma UpdateSubtaskSpec(s: Store, sub: Subtask)
    requires Inv(s)
    ensures var (s', r) := UpdateSubtask(s, sub);
      s'.subtasks == s.subtasks[sub.id := sub] && r == Find(s.subtasks, sub.id) &&
      s'.tasks == s.tasks && s'.lastTaskId == s.lastTaskId && s'.epics.Keys == s.epics.Keys &&
      (forall k :: k in s.epics && k != sub.epicId ==> s'.epics[k] == s.epics[k]) &&
      Inv(s') && (sub.epicId !in s.epics ==> s'.epics == s.epics)
    ensures var s' := UpdateSubtask(s, sub).0;
      sub.epicId in s.epics ==>
        var e := s.epics[sub.epicId];
        var k := FirstWithId(e.subtasks, sub.id);
        (k == |e.subtasks| ==> s'.epics[sub.epicId] == e) &&
        (k < |e.subtasks| ==>
          s'.epics[sub.epicId].subtasks == e.subtasks[..k] + e.subtasks[k + 1..] + [sub] &&
          StatusCurrent(s'.epics[sub.epicId]))
  {
    if sub.epicId in s.epics {
      UpdateSubtaskReplaces(s.epics[sub.epicId], sub);
    }
  }

  /**
   * `deleteEpicById` removes the epic and every subtask whose id it holds,
   * keeps the other subtasks, and returns the epic, or `null` with nothing
   * changed.
   */
  lemma DeleteEpicSpec(s: Store, id: int)
    requires Inv(s)
    ensures var (s', r) := DeleteEpic(s, id);
      Inv(s') && s'.tasks == s.tasks && s'.epics == s.epics - {id} && r == Find(s.epics, id) &&
      (id !in s.epics ==> s' == s) &&
      (id in s.epics ==>
        (forall k :: k in s'.subtasks <==> k in s.subtasks && k !in IdsOf(s.epics[id].subtasks)) &&
        (forall k :: k in s'.subtasks ==> s'.subtasks[k] == s.subtasks[k]))
  {
    if id in s.epics {
      RemoveKeysSpec(s.subtasks, IdsOf(s.epics[id].subtasks));
    }
  }

  /**
   * `deleteSubtaskById` on a subtask whose epic is missing throws with
   * nothing removed; otherwise the subtask leaves the map and its epic, and
   * an epic left empty is deleted.
   */
  lemma DeleteSubtaskSpec(s: Store, id: int)
    requires Inv(s)
    ensures var (s', r) := DeleteSubtask(s, id);
      Inv(s') && s'.tasks == s.tasks && s'.lastTaskId == s.lastTaskId &&
      (id !in s.subtasks ==> s' == s && r == Ok(None)) &&
      (id in s.subtasks && s.subtasks[id].epicId !in s.epics ==> s' == s && r == Err(NullPointer)) &&
      (id in s.subtasks && s.subtasks[id].epicId in s.epics ==>
        var eid := s.subtasks[id].epicId;
        var e := RemoveSubtask(s.epics[eid], s.subtasks[id]);
        r == Ok(Some(s.subtasks[id])) && s'.subtasks == s.subtasks - {id} &&
        (e.subtasks == [] ==> s'.epics == s.epics - {eid}) &&
        (e.subtasks != [] ==> s'.epics == s.epics[eid := e] && StatusCurrent(e)))
  {
    if id in s.subtasks && s.subtasks[id].epicId in s.epics {
      var eid := s.subtasks[id].epicId;
      assert RemoveSubtask(s.epics[eid], s.subtasks[id]).id == eid;
    }
  }
}

/**
 * The manager of package `ru.yandex.practicum` (`TaskManager`): three
 * id-keyed maps and an id counter, updated in place. Its epics hold the
 * subtasks themselves, so a subtask lives both in the map and in its epic.
 */
module OldestTaskManagers {
  import opened Wrappers
  import opened Failures
  import opened Seqs
  import opened LegacyTasks
  import OldestEpics
  import OldestStore

  class TaskManager {
    var tasks: map<int, Task>
    var epics: map<int, OldestEpics.Epic>
    var subtasks: map<int, Subtask>
    var lastTaskId: int

    function State(): OldestStore.Store
      reads this
    {
      OldestStore.Store(tasks, epics, subtasks, lastTaskId)
    }

    ghost predicate Valid()
      reads this
    {
      OldestStore.Inv(State())
    }

    constructor()
      ensures Valid() && State() == OldestStore.Store(map[], map[], map[], 0)
    {
      tasks, epics, subtasks, lastTaskId := map[], map[], map[], 0;
    }

    /** `createTask`: the next id, set on the caller's task, which is stored as is. */
    method CreateTask(task: Task) returns (r: Task)
      requires Valid()
      modifies this`tasks, this`lastTaskId
      ensures Valid() && r == task.(id := old(lastTaskId) + 1) && lastTaskId == r.id
      ensures tasks == old(tasks)[r.id := r]
    {
      lastTaskId := lastTaskId + 1;
      r := task.(id := lastTaskId);
      tasks := tasks[r.id := r];
    }

    /** `createEpic`: likewise for an epic, its list and status as the caller left them. */
    method CreateEpic(epic: OldestEpics.Epic) returns (r: OldestEpics.Epic)
      requires Valid()
      modifies this`epics, this`lastTaskId
      ensures Valid() && r == epic.(id := old(lastTaskId) + 1) && lastTaskId == r.id
      ensures epics == old(epics)[r.id := r]
    {
      lastTaskId := lastTaskId + 1;
      r := epic.(id := lastTaskId);
      epics := epics[r.id := r];
    }

    method CreateSubtask(sub: Subtask) returns (r: Result<Subtask, Failure>)
      requires Valid()
      modifies this
      ensures Valid()
      ensures (State(), r) == OldestStore.CreateSubtask(old(State()), sub)
    {
      lastTaskId := lastTaskId + 1;
      var t := sub.(id := lastTaskId);
      subtasks := subtasks[t.id := t];
      if t.epicId !in epics {
        r := Err(NullPointer);
      } else {
        epics := epics[t.epicId := OldestEpics.AddSubtask(epics[t.epicId], t)];
        r := Ok(t);
      }
      OldestStore.CreateSubtaskSpec(old(State()), sub);
    }

    /** `updateTask`: put under the task's id and return what was there. */
    method UpdateTask(task: Task) returns (r: Option<Task>)
      requires Valid()
      modifies this`tasks
      ensures Valid() && tasks == old(tasks)[task.id := task] && r == Find(old(tasks), task.id)
    {
      r := Find(tasks, task.id);
      tasks := tasks[task.id := task];
    }

    /** `updateEpic`: put under the epic's id and return what was there. */
    method UpdateEpic(epic: OldestEpics.Epic) returns (r: Option<OldestEpics.Epic>)
      requires Valid()
      modifies this`epics
      ensures Valid() && epics == old(epics)[epic.id := epic] && r == Find(old(epics), epic.id)
    {
      r := Find(epics, epic.id);
      epics := epics[epic.id := epic];
    }

    method UpdateSubtask(sub: Subtask) returns (r: Option<Subtask>)
      requires Valid()
      modifies this
      ensures Valid()
      ensures (State(), r) == OldestStore.UpdateSubtask(old(State()), sub)
    {
      if sub.epicId in epics {
        epics := epics[sub.epicId := OldestEpics.UpdateSubtask(epics[sub.epicId], sub)];
      }
      r := Find(subtasks, sub.id);
      subtasks := subtasks[sub.id := sub];
      OldestStore.UpdateSubtaskSpec(old(State()), sub);
    }

    /** `getAllTasks`: every stored task, once each, in iteration order. */
    function GetAllTasks(): (r: seq<Task>)
      reads this
      ensures forall k :: k in tasks ==> tasks[k] in r
      ensures forall x :: x in r ==> exists k :: k in tasks && tasks[k] == x
    {
      ValuesSpec(tasks);
      Values(tasks)
    }

    /** `getAllEpics`: every stored epic, once each, in iteration order. */
    function GetAllEpics(): (r: seq<OldestEpics.Epic>)
      reads this
      ensures forall k :: k in epics ==> epics[k] in r
      ensures forall x :: x in r ==> exists k :: k in epics && epics[k] == x
    {
      ValuesSpec(epics);
      Values(epics)
    }

    /** `getAllSubtasks`: every stored subtask, once each, in iteration order. */
    function GetAllSubtasks(): (r: seq<Subtask>)
      reads this
      ensures forall k :: k in subtasks ==> subtasks[k] in r
      ensures forall x :: x in r ==> exists k :: k in subtasks && subtasks[k] == x
    {
      ValuesSpec(subtasks);
      Values(subtasks)
    }

    /** `getTaskById`: the stored task, or `null`. */
    function GetTaskById(id: int): (r: Option<Task>)
      reads this
      ensures r.Some? <==> id in tasks
      ensures r.Some? ==> r.value == tasks[id]
    {
      Find(tasks, id)
    }

    /** `getEpicById`: the stored epic, or `null`. */
    function GetEpicById(id: int): (r: Option<OldestEpics.Epic>)
      reads this
      ensures r.Some? <==> id in epics
      ensures r.Some? ==> r.value == epics[id]
    {
      Find(epics, id)
    }

    /** `getSubtaskById`: the stored subtask, or `null`. */
    function GetSubtaskById(id: int): (r: Option<Subtask>)
      reads this
      ensures r.Some? <==> id in subtasks
      ensures r.Some? ==> r.value == subtasks[id]
    {
      Find(subtasks, id)
    }

    /** `deleteAllTasks`: clears the task map only. */
    method DeleteAllTasks()
      requires Valid()
      modifies this`tasks
      ensures Valid() && State() == old(State()).(tasks := map[])
    {
      tasks := map[];
    }

    /** `deleteAllEpics`: clears the epic map only; the subtasks stay. */
    method DeleteAllEpics()
      requires Valid()
      modifies this`epics
      ensures Valid() && State() == old(State()).(epics := map[])
    {
      epics := map[];
    }

    /** `deleteAllSubtasks`: clears the subtask map only; the epics keep holding theirs. */
    method DeleteAllSubtasks()
      requires Valid()
      modifies this`subtasks
      ensures Valid() && State() == old(State()).(subtasks := map[])
    {
      subtasks := map[];
    }

    /** `deleteTaskById`: remove and return what was there. */
    method DeleteTaskById(id: int) returns (r: Option<Task>)
      requires Valid()
      modifies this`tasks
      ensures Valid() && tasks == old(tasks) - {id} && r == Find(old(tasks), id)
    {
      r := Find(tasks, id);
      tasks := tasks - {id};
    }

    method DeleteEpicById(id: int) returns (r: Option<OldestEpics.Epic>)
      requires Valid()
      modifies this
      ensures Valid()
      ensures (State(), r) == OldestStore.DeleteEpic(old(State()), id)
    {
      if id in epics {
        var subs := epics[id].subtasks;
        ghost var ids := OldestEpics.IdsOf(subs);
        var i := 0;
        while i < |subs|
          invariant 0 <= i <= |subs|
          invariant subtasks == RemoveKeys(old(subtasks), ids[..i])
          invariant epics == old(epics) && tasks == old(tasks) && lastTaskId == old(lastTaskId)
        {
          assert ids[..i + 1][..i] == ids[..i];
          subtasks := subtasks - {subs[i].id};
          i := i + 1;
        }
        assert ids[..i] == ids;
      }
      r := Find(epics, id);
      epics := epics - {id};
      OldestStore.DeleteEpicSpec(old(State()), id);
    }

    method DeleteSubtaskById(id: int) returns (r: Result<Option<Subtask>, Failure>)
      requires Valid()
      modifies this
      ensures Valid()
      ensures (State(), r) == OldestStore.DeleteSubtask(old(State()), id)
    {
      var sub := Find(subtasks, id);
      if sub.None? {
        r := Ok(None);
      } else if sub.value.epicId !in epics {
        r := Err(NullPointer);
      } else {
        var e := OldestEpics.RemoveSubtask(epics[sub.value.epicId], sub.value);
        epics := epics[sub.value.epicId := e];
        if e.subtasks == [] {
          epics := epics - {e.id};
        }
        r := Ok(sub);
        subtasks := subtasks - {id};
      }
      OldestStore.DeleteSubtaskSpec(old(State()), id);
    }
  }
}
