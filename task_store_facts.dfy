/**
 * What the operations of `managers/InMemoryTaskManager` promise, proved
 * about the store functions: the invariant each keeps, the writes refused
 * before any change, the copies stored, the id counter, the history feed
 * and the delete cascades.
 */
module TaskStoreFacts {
  import opened Wrappers
  import opened Failures
  import opened Seqs
  import opened TaskStatuses
  import opened Tasks
  import EpicState
  import opened TaskManagerUtil
  import opened PriorityIndex
  import opened HistoryManagers
  import opened TaskStore

  /** The index is in ascending start order, as the tree keeps it. */
  ghost predicate Ordered(s: Store)
  {
    Timed(s.prioritized) && Ascending(s.prioritized)
  }

  /** No stored id is above the counter, so the next id is unused. */
  ghost predicate IdsBelowCounter(s: Store)
  {
    forall k :: (k in s.tasks || k in s.epics || k in s.subtasks) ==> k <= s.lastTaskId
  }

  /** A new manager satisfies the invariant, is ordered and has no ids at all. */
  lemma EmptyIsValid()
    ensures Inv(Empty()) && Ordered(Empty()) && IdsBelowCounter(Empty())
  {
  }

  // ----- createTask / createEpic / createSubtask -----

  /**
   * `createTask`: a refused write changes nothing; an accepted one takes
   * id `lastTaskId + 1`, returns the caller's item with that id and stores a
   * copy of it, and touches neither the other maps nor the history.
   */
  lemma CreateTaskSpec(s: Store, task: Item)
    requires Inv(s)
    ensures Inv(CreateTask(s, task).0)
    ensures Ordered(s) ==> Ordered(CreateTask(s, task).0)
    ensures CreateTask(s, task).1.Ok? <==> CheckTime(s, task).Pass?
    ensures CheckTime(s, task).Fail? ==> CreateTask(s, task) == (s, Err(CheckTime(s, task).failure))
    ensures CheckTime(s, task).Pass? ==>
      var (s', r) := CreateTask(s, task);
      var id := s.lastTaskId + 1;
      r == Ok(WithId(task, id)) && s'.lastTaskId == id &&
      s'.tasks == s.tasks[id := GetCopyTask(WithId(task, id))] &&
      s'.epics == s.epics && s'.subtasks == s.subtasks && s'.history == s.history &&
      (forall x :: x in s'.prioritized ==> x in s.prioritized || x == GetCopyTask(WithId(task, id)))
    ensures IdsBelowCounter(s) ==> IdsBelowCounter(CreateTask(s, task).0)
    ensures IdsBelowCounter(s) && CheckTime(s, task).Pass? ==>
      var id := s.lastTaskId + 1; id !in s.tasks && id !in s.epics && id !in s.subtasks
  {
    if CheckTime(s, task).Pass? {
      var id := s.lastTaskId + 1;
      var copy := GetCopyTask(WithId(task, id));
      ScheduleSpec(s.prioritized, copy);
      if copy.startTime.Some? {
        AddMembers(s.prioritized, copy);
        if Ordered(s) {
          AddAscending(s.prioritized, copy);
        }
      }
    }
  }

  /** `createEpic`: id `lastTaskId + 1`; the stored copy has the caller's name, description and status, and no subtasks or times. */
  lemma CreateEpicSpec(s: Store, epic: Item)
    requires Inv(s) && epic.Epic?
    ensures Inv(CreateEpic(s, epic).0)
    ensures Ordered(s) ==> Ordered(CreateEpic(s, epic).0)
    ensures var (s', r) := CreateEpic(s, epic);
      var id := s.lastTaskId + 1;
      r == WithId(epic, id) && s'.lastTaskId == id && id in s'.epics &&
      s'.epics[id] == Epic(id, epic.name, epic.description, epic.status, None, 0, None, []) &&
      (forall k :: k in s.epics && k != id ==> k in s'.epics && s'.epics[k] == s.epics[k]) &&
      s'.tasks == s.tasks && s'.subtasks == s.subtasks && s'.prioritized == s.prioritized && s'.history == s.history
    ensures IdsBelowCounter(s) ==> (IdsBelowCounter(CreateEpic(s, epic).0) &&
      s.lastTaskId + 1 !in s.tasks && s.lastTaskId + 1 !in s.epics && s.lastTaskId + 1 !in s.subtasks)
  {
  }

  /**
   * `createSubtask`: a refused write changes nothing; otherwise the subtask
   * is stored under the next id and indexed, and then either the epic is
   * missing (a null-pointer failure, with the subtask left stored) or the
   * id is listed in the epic, which is recomputed and stays in place.
   */
  lemma CreateSubtaskSpec(s: Store, sub: Item)
    requires Inv(s) && sub.Subtask?
    ensures Inv(CreateSubtask(s, sub).0)
    ensures Ordered(s) ==> Ordered(CreateSubtask(s, sub).0)
    ensures CheckTime(s, sub).Fail? ==> CreateSubtask(s, sub) == (s, Err(CheckTime(s, sub).failure))
    ensures CheckTime(s, sub).Pass? ==>
      var (s', r) := CreateSubtask(s, sub);
      var id := s.lastTaskId + 1;
      s'.lastTaskId == id && s'.subtasks == s.subtasks[id := WithId(sub, id)] &&
      s'.tasks == s.tasks && s'.history == s.history && s'.epics.Keys == s.epics.Keys &&
      (forall k :: k in s.epics && k != sub.epicId ==> s'.epics[k] == s.epics[k])
    ensures CheckTime(s, sub).Pass? && sub.epicId !in s.epics ==>
      CreateSubtask(s, sub).1 == Err(NullPointer)
    ensures CheckTime(s, sub).Pass? && sub.epicId in s.epics ==>
      var (s', r) := CreateSubtask(s, sub);
      var id := s.lastTaskId + 1;
      s'.epics[sub.epicId].subtaskIds == EpicState.AddSubtaskId(s.epics[sub.epicId].subtaskIds, id) &&
      id in s'.epics[sub.epicId].subtaskIds &&
      (r.Ok? ==> r.value == WithId(sub, id) && Recomputed(s'.epics[sub.epicId], s'.subtasks))
    ensures IdsBelowCounter(s) ==> IdsBelowCounter(CreateSubtask(s, sub).0)
  {
    if CheckTime(s, sub).Pass? {
      var id := s.lastTaskId + 1;
      var copy := GetCopyTask(WithId(sub, id));
      ScheduleSpec(s.prioritized, copy);
      if Ordered(s) && copy.startTime.Some? {
        AddAscending(s.prioritized, copy);
      }
      if sub.epicId in s.epics {
        var e := s.epics[sub.epicId];
        var listed := e.(subtaskIds := EpicState.AddSubtaskId(e.subtaskIds, id));
        EpicState.CalculateStateFrame(listed, SubtasksByIds(s.subtasks[id := copy], listed.subtaskIds));
        RecalculatedFollows(listed, s.subtasks[id := copy]);
      }
    }
  }

  // ----- updateTask / updateEpic / updateSubtask -----

  /**
   * `updateTask`: a failure changes nothing; an untimed item on a non-empty
   * index always fails with a null pointer; a success stores a copy under
   * the item's id and only shrinks or rewrites the index in place.
   */
  lemma UpdateTaskSpec(s: Store, task: Item)
    requires Inv(s)
    ensures Inv(UpdateTask(s, task).0)
    ensures UpdateTask(s, task).1.Err? ==> UpdateTask(s, task).0 == s
    ensures UpdateTask(s, task).1.Ok? <==>
      CheckTime(s, task).Pass? && (s.prioritized == [] || task.startTime.Some?)
    ensures CheckTime(s, task).Pass? && s.prioritized != [] && task.startTime.None? ==>
      UpdateTask(s, task).1 == Err(NullPointer)
    ensures UpdateTask(s, task).1.Ok? ==>
      var (s', r) := UpdateTask(s, task);
      r.value == task && s'.tasks == s.tasks[task.id := GetCopyTask(task)] &&
      s'.epics == s.epics && s'.subtasks == s.subtasks && s'.history == s.history &&
      s'.lastTaskId == s.lastTaskId && |s'.prioritized| <= |s.prioritized|
  {
    UpdateOrRemoveSpec(s.prioritized, task);
    RemoveSpec(s.prioritized, task);
    FilterSpec(s.prioritized, OtherStart(task.startTime));
  }

  /**
   * Updates rewrite start times inside the index and can leave it out of
   * order: an ordered store, an accepted update, an index that is not.
   */
  lemma UpdateTaskBreaksOrder()
    ensures var a := Task(1, "a", "", NEW, Some(0), 10);
      var b := Task(2, "b", "", NEW, Some(100), 10);
      var s := Store(map[1 := a, 2 := b], map[], map[], [a, b], 2, []);
      var later := Task(1, "a", "", NEW, Some(200), 10);
      Inv(s) && Ordered(s) && CheckTime(s, later).Pass? &&
      UpdateTask(s, later).1 == Ok(later) && UpdateTask(s, later).0.prioritized == [later, b] &&
      !Ordered(UpdateTask(s, later).0)
  {
    var a := Task(1, "a", "", NEW, Some(0), 10);
    var b := Task(2, "b", "", NEW, Some(100), 10);
    var later := Task(1, "a", "", NEW, Some(200), 10);
    var s := Store(map[1 := a, 2 := b], map[], map[], [a, b], 2, []);
    assert [a, b][1..] == [b];
    assert [b][1..] == [];
    assert IsIntersectedByTime(b, later) == Some(false);
    assert IsTimeIntersected(later, [b]) == Some(false);
    assert CheckTime(s, later).Pass?;
    UpdateBreaksOrder();
    assert UpdateOrRemove([a, b], later) == Ok([later, b]);
    assert Inv(s);
    assert !Ascending([later, b]) by {
      assert [later, b][0].startTime.value > [later, b][1].startTime.value;
    }
  }

  /** Nothing checks the id of an update: a store can hold an id the counter never reached. */
  lemma UpdateTaskStoresUnknownId()
    ensures var t := Task(5, "t", "", NEW, None, 0);
      var s' := UpdateTask(Empty(), t).0;
      5 in s'.tasks && s'.lastTaskId == 0 && !IdsBelowCounter(s')
  {
  }

  /** The ids, among `ids`, whose subtask names the epic, without repeats when `ids` has none. */
  lemma {:induction false} ChildIdsSpec(subtasks: map<int, Item>, ids: seq<int>, epicId: int)
    ensures forall x :: x in ChildIds(subtasks, ids, epicId) <==>
      x in ids && x in subtasks && subtasks[x].Subtask? && subtasks[x].epicId == epicId
    ensures Distinct(ids) ==> Distinct(ChildIds(subtasks, ids, epicId))
  {
    if ids != [] {
      var init := ids[..|ids| - 1];
      var k := ids[|ids| - 1];
      ChildIdsSpec(subtasks, init, epicId);
      assert ids == init + [k];
      if Distinct(ids) {
        assert k !in init;
        var c := ChildIds(subtasks, init, epicId);
        var r := ChildIds(subtasks, ids, epicId);
        forall i, j | 0 <= i < j < |r| ensures r[i] != r[j] {
          if j < |c| {
            assert r[i] == c[i] && r[j] == c[j];
          } else {
            assert r[i] == c[i] && c[i] in init;
          }
        }
      }
    }
  }

  /** Adding ids that are new and distinct appends them in order. */
  lemma {:induction false} AddAllNew(ids: seq<int>, more: seq<int>)
    requires Distinct(more) && forall x :: x in more ==> x !in ids
    ensures AddAll(ids, more) == ids + more
  {
    if more != [] {
      var init := more[..|more| - 1];
      var x := more[|more| - 1];
      AddAllNew(ids, init);
      assert x !in init;
      assert more == init + [x];
    }
  }

  /** `addSubtaskId` one at a time gives the union of the two lists. */
  lemma {:induction false} AddAllMembers(ids: seq<int>, more: seq<int>)
    ensures forall x :: x in AddAll(ids, more) <==> x in ids || x in more
  {
    if more != [] {
      var init := more[..|more| - 1];
      AddAllMembers(ids, init);
      assert more == init + [more[|more| - 1]];
    }
  }

  /** One more id of the iteration: the list grows by it exactly when its subtask names the epic. */
  lemma ChildIdsStep(subtasks: map<int, Item>, ids: seq<int>, i: nat, epicId: int)
    requires i < |ids|
    ensures var k := ids[i];
      k in subtasks && subtasks[k].Subtask? && subtasks[k].epicId == epicId ==>
        ChildIds(subtasks, ids[..i + 1], epicId) == ChildIds(subtasks, ids[..i], epicId) + [k]
    ensures var k := ids[i];
      !(k in subtasks && subtasks[k].Subtask? && subtasks[k].epicId == epicId) ==>
        ChildIds(subtasks, ids[..i + 1], epicId) == ChildIds(subtasks, ids[..i], epicId)
  {
    var next := ids[..i + 1];
    assert next[..i] == ids[..i] && next[i] == ids[i];
    assert ChildIds(subtasks, ids[..i], epicId) + [] == ChildIds(subtasks, ids[..i], epicId);
  }

  /** Adding one more id is one more `addSubtaskId`. */
  lemma AddAllStep(ids: seq<int>, more: seq<int>, k: int)
    ensures AddAll(ids, more + [k]) == EpicState.AddSubtaskId(AddAll(ids, more), k)
  {
    assert (more + [k])[..|more|] == more;
  }

  /** The stored subtasks a list of present ids names. */
  function Lookup(m: map<int, Item>, ids: seq<int>): (r: seq<Item>)
    requires forall i :: 0 <= i < |ids| ==> ids[i] in m
    ensures |r| == |ids| && forall i :: 0 <= i < |ids| ==> r[i] == m[ids[i]]
  {
    seq(|ids|, i requires 0 <= i < |ids| => m[ids[i]])
  }

  /** When every listed id is stored, `getSubtasksByEpic` has no nulls. */
  lemma {:induction false} SubtasksByIdsPresent(m: map<int, Item>, ids: seq<int>)
    requires forall i :: 0 <= i < |ids| ==> ids[i] in m
    ensures SubtasksByIds(m, ids) == EpicState.Wrap(Lookup(m, ids))
  {
    if ids != [] {
      SubtasksByIdsPresent(m, ids[1..]);
      assert Lookup(m, ids)[1..] == Lookup(m, ids[1..]);
      assert SubtasksByIds(m, ids) == [Some(m[ids[0]])] + SubtasksByIds(m, ids[1..]);
    }
  }

  /**
   * The state `calculateState` leaves on an epic whose listed subtasks are
   * all stored and all scheduled, read from the map.
   */
  ghost predicate Recomputed(e: Item, subtasks: map<int, Item>)
  {
    e.Epic? && (forall i :: 0 <= i < |e.subtaskIds| ==> e.subtaskIds[i] in subtasks) &&
    EpicState.Follows(e, Lookup(subtasks, e.subtaskIds))
  }

  /** A recomputation over `getSubtasksByEpic` that does not throw leaves that state. */
  lemma RecalculatedFollows(e: Item, m: map<int, Item>)
    requires e.Epic?
    ensures EpicState.CalculateState(e, SubtasksByIds(m, e.subtaskIds)).1 ==>
      Recomputed(EpicState.CalculateState(e, SubtasksByIds(m, e.subtaskIds)).0, m)
  {
    var subs := SubtasksByIds(m, e.subtaskIds);
    EpicState.CalculateStateFrame(e, subs);
    if EpicState.CalculateState(e, subs).1 {
      forall i | 0 <= i < |e.subtaskIds|
        ensures e.subtaskIds[i] in m
      {
        if e.subtaskIds[i] !in m {
          EpicState.NullIsNotPresent(subs, i);
        }
      }
      SubtasksByIdsPresent(m, e.subtaskIds);
      EpicState.CalculateStateFollows(e, Lookup(m, e.subtaskIds));
    }
  }
  /** The ids of the stored subtasks that name the epic, in iteration order. */
  function Children(s: Store, epicId: int): (r: seq<int>)
  {
    ChildIds(s.subtasks, SortedIds(s.subtasks.Keys), epicId)
  }

  /** Those ids are exactly the stored subtasks naming the epic, each once, ascending. */
  lemma ChildrenSpec(s: Store, epicId: int)
    requires Inv(s)
    ensures var c := Children(s, epicId);
      (forall x :: x in c <==> x in s.subtasks && s.subtasks[x].epicId == epicId) &&
      (forall i, j :: 0 <= i < j < |c| ==> c[i] < c[j]) &&
      (forall i :: 0 <= i < |c| ==> c[i] in s.subtasks)
  {
    var ids := SortedIds(s.subtasks.Keys);
    ChildIdsSpec(s.subtasks, ids, epicId);
    var c := Children(s, epicId);
    forall i, j | 0 <= i < j < |c| ensures c[i] < c[j] {
      ChildrenAscending(s.subtasks, ids, epicId, i, j);
    }
  }

  /** `updateEpic` as the put of two recomputed epic objects: the caller's and a copy listing the children. */
  lemma UpdateEpicUnfolds(s: Store, epic: Item)
    requires Inv(s) && epic.Epic?
    ensures var c := Children(s, epic.id);
      var caller := epic.(subtaskIds := AddAll(epic.subtaskIds, c));
      var stored := Epic(epic.id, epic.name, epic.description, epic.status, None, 0, None, c);
      UpdateEpic(s, epic) == PutRecalculated(s, caller, stored, SubtasksByIds(s.subtasks, c))
  {
    var c := Children(s, epic.id);
    ChildrenSpec(s, epic.id);
    AddAllNew([], c);
    assert [] + c == c;
  }

  /**
   * `updateEpic` changes only the epic map. A failure changes nothing; a
   * success stores the epic under its id, keeps the other epics, and gives
   * the stored epic exactly the subtasks that name it.
   */
  lemma UpdateEpicFrame(s: Store, epic: Item)
    requires Inv(s) && epic.Epic?
    ensures var (s', r) := UpdateEpic(s, epic);
      Inv(s') && s'.tasks == s.tasks && s'.subtasks == s.subtasks && s'.prioritized == s.prioritized &&
      s'.history == s.history && s'.lastTaskId == s.lastTaskId &&
      (r.Err? ==> s' == s && r.error == NullPointer) &&
      (r.Ok? ==> (epic.id in s'.epics && s'.epics == s.epics[epic.id := s'.epics[epic.id]] &&
        s'.epics[epic.id].name == epic.name && s'.epics[epic.id].description == epic.description &&
        s'.epics[epic.id].subtaskIds == Children(s, epic.id)))
  {
    UpdateEpicUnfolds(s, epic);
    var c := Children(s, epic.id);
    var caller := epic.(subtaskIds := AddAll(epic.subtaskIds, c));
    var stored := Epic(epic.id, epic.name, epic.description, epic.status, None, 0, None, c);
    PutRecalculatedFrame(s, caller, stored, SubtasksByIds(s.subtasks, c));
  }

  /** The put of `updateEpic` keeps the invariant for an epic keyed by its id and changes only the epic map. */
  lemma PutRecalculatedFrame(s: Store, caller: Item, stored: Item, subs: seq<Option<Item>>)
    requires Inv(s) && caller.Epic? && stored.Epic?
    ensures var (s', r) := PutRecalculated(s, caller, stored, subs);
      Inv(s') && s'.tasks == s.tasks && s'.subtasks == s.subtasks && s'.prioritized == s.prioritized &&
      s'.history == s.history && s'.lastTaskId == s.lastTaskId &&
      (r.Err? ==> s' == s && r.error == NullPointer) &&
      (r.Ok? ==> (stored.id in s'.epics && s'.epics == s.epics[stored.id := s'.epics[stored.id]] &&
        s'.epics[stored.id].name == stored.name && s'.epics[stored.id].description == stored.description &&
        s'.epics[stored.id].subtaskIds == stored.subtaskIds &&
        r.value.Epic? && r.value.id == caller.id && r.value.name == caller.name &&
        r.value.subtaskIds == caller.subtaskIds))
  {
    EpicState.CalculateStateFrame(caller, subs);
    EpicState.CalculateStateFrame(stored, subs);
  }

  /**
   * On success the stored epic's status and duration follow from the
   * subtasks naming it, and so does its whole derived state, start and end
   * included.
   */
  lemma UpdateEpicDerives(s: Store, epic: Item)
    requires Inv(s) && epic.Epic?
    ensures UpdateEpic(s, epic).1.Ok? ==>
      var e := UpdateEpic(s, epic).0.epics[epic.id];
      var c := Children(s, epic.id);
      (forall i :: 0 <= i < |c| ==> c[i] in s.subtasks) &&
      e.status == Rule(EpicState.StatusList(Lookup(s.subtasks, c))) &&
      e.duration == EpicState.TotalDuration(Lookup(s.subtasks, c)) &&
      Recomputed(e, s.subtasks)
  {
    UpdateEpicUnfolds(s, epic);
    var c := Children(s, epic.id);
    ChildrenSpec(s, epic.id);
    var stored := Epic(epic.id, epic.name, epic.description, epic.status, None, 0, None, c);
    SubtasksByIdsPresent(s.subtasks, c);
    EpicState.CalculateStateOfItems(stored, Lookup(s.subtasks, c));
    EpicState.CalculateStateFrame(stored, SubtasksByIds(s.subtasks, c));
    RecalculatedFollows(stored, s.subtasks);
  }

  /** On success the caller's own epic object gains the ids of the subtasks naming it. */
  lemma UpdateEpicCaller(s: Store, epic: Item)
    requires Inv(s) && epic.Epic?
    ensures UpdateEpic(s, epic).1.Ok? ==>
      var r := UpdateEpic(s, epic).1.value;
      r.Epic? && r.id == epic.id && r.name == epic.name &&
      forall x :: x in r.subtaskIds <==> x in epic.subtaskIds || (x in s.subtasks && s.subtasks[x].epicId == epic.id)
  {
    UpdateEpicUnfolds(s, epic);
    var c := Children(s, epic.id);
    ChildrenSpec(s, epic.id);
    AddAllMembers(epic.subtaskIds, c);
    var caller := epic.(subtaskIds := AddAll(epic.subtaskIds, c));
    EpicState.CalculateStateFrame(caller, SubtasksByIds(s.subtasks, c));
  }

  /** Picking from an ascending list keeps the order. */
  lemma {:induction false} ChildrenAscending(subtasks: map<int, Item>, ids: seq<int>, epicId: int, i: nat, j: nat)
    requires forall a, b :: 0 <= a < b < |ids| ==> ids[a] < ids[b]
    requires i < j < |ChildIds(subtasks, ids, epicId)|
    ensures ChildIds(subtasks, ids, epicId)[i] < ChildIds(subtasks, ids, epicId)[j]
  {
    var init := ids[..|ids| - 1];
    var k := ids[|ids| - 1];
    var c := ChildIds(subtasks, init, epicId);
    if j < |c| {
      ChildrenAscending(subtasks, init, epicId, i, j);
    } else {
      ChildIdsSpec(subtasks, init, epicId);
      assert ids == init + [k];
      assert ChildIds(subtasks, ids, epicId) == c + [k];
      assert i < |c| && c[i] in c;
      assert c[i] in init;
      var a :| 0 <= a < |init| && init[a] == c[i];
      assert ids[a] == c[i];
    }
  }

  /**
   * `updateSubtask`: refused or epic-less updates change nothing (the
   * latter returning `null`); otherwise the copy replaces the stored
   * subtask and the epic keeps its key and id list while it is recomputed.
   */
  lemma UpdateSubtaskSpec(s: Store, sub: Item)
    requires Inv(s) && sub.Subtask?
    ensures Inv(UpdateSubtask(s, sub).0)
    ensures CheckTime(s, sub).Fail? ==> UpdateSubtask(s, sub) == (s, Err(CheckTime(s, sub).failure))
    ensures CheckTime(s, sub).Pass? && sub.epicId !in s.epics ==> UpdateSubtask(s, sub) == (s, Ok(None))
    ensures UpdateSubtask(s, sub).1 == Ok(Some(sub)) || UpdateSubtask(s, sub).1 == Ok(None) ||
      UpdateSubtask(s, sub).1.Err?
    ensures CheckTime(s, sub).Pass? && sub.epicId in s.epics && (s.prioritized == [] || sub.startTime.Some?) ==>
      var s' := UpdateSubtask(s, sub).0;
      s'.subtasks == s.subtasks[sub.id := sub] && s'.tasks == s.tasks && s'.history == s.history &&
      s'.lastTaskId == s.lastTaskId && s'.epics.Keys == s.epics.Keys &&
      s'.epics[sub.epicId].subtaskIds == s.epics[sub.epicId].subtaskIds &&
      (forall k :: k in s.epics && k != sub.epicId ==> s'.epics[k] == s.epics[k])
    ensures UpdateSubtask(s, sub).1 == Ok(Some(sub)) ==>
      var s' := UpdateSubtask(s, sub).0;
      sub.epicId in s'.epics && Recomputed(s'.epics[sub.epicId], s'.subtasks)
  {
    UpdateSubtaskKeepsInv(s, sub);
    UpdateOrRemoveSpec(s.prioritized, sub);
    if CheckTime(s, sub).Pass? && sub.epicId in s.epics {
      var subs := s.subtasks[sub.id := sub];
      var e := s.epics[sub.epicId];
      EpicState.CalculateStateFrame(e, SubtasksByIds(subs, e.subtaskIds));
    }
    UpdateSubtaskRecomputes(s, sub);
  }

  /** `updateSubtask` keeps the store invariant. */
  lemma UpdateSubtaskKeepsInv(s: Store, sub: Item)
    requires Inv(s) && sub.Subtask?
    ensures Inv(UpdateSubtask(s, sub).0)
  {
    UpdateOrRemoveSpec(s.prioritized, sub);
    RemoveSpec(s.prioritized, sub);
    if CheckTime(s, sub).Pass? && sub.epicId in s.epics {
      var subs := s.subtasks[sub.id := sub];
      var e := s.epics[sub.epicId];
      EpicState.CalculateStateFrame(e, SubtasksByIds(subs, e.subtaskIds));
    }
  }

  /** A successful `updateSubtask` leaves the epic in the state its stored subtasks give. */
  lemma UpdateSubtaskRecomputes(s: Store, sub: Item)
    requires Inv(s) && sub.Subtask?
    ensures UpdateSubtask(s, sub).1 == Ok(Some(sub)) ==>
      var s' := UpdateSubtask(s, sub).0;
      sub.epicId in s'.epics && Recomputed(s'.epics[sub.epicId], s'.subtasks)
  {
    if CheckTime(s, sub).Pass? && sub.epicId in s.epics {
      RecalculatedFollows(s.epics[sub.epicId], s.subtasks[sub.id := sub]);
    }
  }

  // ----- getTask / getEpic / getSubtask -----

  /**
   * A lookup fails with `NotFoundException` exactly when the id is absent,
   * and then changes nothing; a hit returns the stored item, moves it to
   * the end of the history and changes nothing else.
   */
  lemma GetSpec(s: Store, m: map<int, Item>, id: int)
    requires UniqueIds(s.history) && KeyedById(m)
    ensures Get(s, m, id).1.Err? <==> id !in m
    ensures id !in m ==> Get(s, m, id) == (s, Err(NotFound(id)))
    ensures id in m ==>
      var g := Get(s, m, id);
      var s', r, h := g.0, g.1, g.0.history;
      r == Ok(m[id]) && UniqueIds(h) && h[|h| - 1] == m[id] && h[..|h| - 1] == Without(s.history, id) &&
      (forall x :: HasId(h, x) <==> x == id || HasId(s.history, x)) &&
      s'.tasks == s.tasks && s'.epics == s.epics && s'.subtasks == s.subtasks &&
      s'.prioritized == s.prioritized && s'.lastTaskId == s.lastTaskId
  {
    if id in m {
      RecordSpec(s.history, m[id]);
    }
  }

  /** Lookups of any of the three maps keep the invariant and the order. */
  lemma GetKeepsInv(s: Store, m: map<int, Item>, id: int)
    requires Inv(s)
    ensures Inv(Get(s, m, id).0)
    ensures Ordered(s) ==> Ordered(Get(s, m, id).0)
  {
    if id in m {
      RecordSpec(s.history, m[id]);
    }
  }

  // ----- deleteAllTasks / deleteAllSubtasks / deleteAllEpics -----

  /** Removing stored values from the index keeps it well-formed and ordered, and adds nothing. */
  lemma RemoveValues(s: Store, m: map<int, Item>)
    requires Inv(s)
    ensures var idx := RemoveAll(s.prioritized, Values(m)).0;
      Entries(idx) && (Ordered(s) ==> Timed(idx) && Ascending(idx)) &&
      forall x :: x in idx ==> x in s.prioritized
    ensures RemoveAll(s.prioritized, Values(m)).1.Fail? ==>
      exists i :: 0 <= i < |Values(m)| && Values(m)[i].startTime.None?
  {
    RemoveAllSpec(s.prioritized, Values(m));
  }

  /**
   * `deleteAllTasks`: the history and the other maps are untouched; on
   * success the task map is empty; a failure (an untimed task reached by
   * the element-wise removal) leaves the map as it was.
   */
  lemma DeleteAllTasksSpec(s: Store)
    requires Inv(s)
    ensures Inv(DeleteAllTasks(s).0)
    ensures Ordered(s) ==> Ordered(DeleteAllTasks(s).0)
    ensures var s' := DeleteAllTasks(s).0;
      s'.history == s.history && s'.epics == s.epics && s'.subtasks == s.subtasks &&
      s'.lastTaskId == s.lastTaskId && forall x :: x in s'.prioritized ==> x in s.prioritized
    ensures DeleteAllTasks(s).1.Pass? ==> DeleteAllTasks(s).0.tasks == map[]
    ensures DeleteAllTasks(s).1.Fail? ==> (DeleteAllTasks(s).0.tasks == s.tasks &&
      exists k :: k in s.tasks && s.tasks[k].startTime.None?)
  {
    RemoveValues(s, s.tasks);
    if DeleteAllTasks(s).1.Fail? {
      var i :| 0 <= i < |Values(s.tasks)| && Values(s.tasks)[i].startTime.None?;
      assert SortedIds(s.tasks.Keys)[i] in s.tasks;
    }
  }

  /** `deleteAllSubtasks`: as `deleteAllTasks`, for the subtask map; epics keep their id lists. */
  lemma DeleteAllSubtasksSpec(s: Store)
    requires Inv(s)
    ensures Inv(DeleteAllSubtasks(s).0)
    ensures Ordered(s) ==> Ordered(DeleteAllSubtasks(s).0)
    ensures var s' := DeleteAllSubtasks(s).0;
      s'.history == s.history && s'.epics == s.epics && s'.tasks == s.tasks &&
      s'.lastTaskId == s.lastTaskId && forall x :: x in s'.prioritized ==> x in s.prioritized
    ensures DeleteAllSubtasks(s).1.Pass? ==> DeleteAllSubtasks(s).0.subtasks == map[]
    ensures DeleteAllSubtasks(s).1.Fail? ==> (DeleteAllSubtasks(s).0.subtasks == s.subtasks &&
      exists k :: k in s.subtasks && s.subtasks[k].startTime.None?)
  {
    RemoveValues(s, s.subtasks);
    if DeleteAllSubtasks(s).1.Fail? {
      var i :| 0 <= i < |Values(s.subtasks)| && Values(s.subtasks)[i].startTime.None?;
      assert SortedIds(s.subtasks.Keys)[i] in s.subtasks;
    }
  }

  /** `deleteAllEpics`: on success both the epic and the subtask maps are empty; history and tasks are untouched. */
  lemma DeleteAllEpicsSpec(s: Store)
    requires Inv(s)
    ensures Inv(DeleteAllEpics(s).0)
    ensures Ordered(s) ==> Ordered(DeleteAllEpics(s).0)
    ensures var s' := DeleteAllEpics(s).0;
      s'.history == s.history && s'.tasks == s.tasks && s'.lastTaskId == s.lastTaskId
    ensures DeleteAllEpics(s).1.Pass? ==> DeleteAllEpics(s).0.epics == map[] && DeleteAllEpics(s).0.subtasks == map[]
    ensures DeleteAllEpics(s).1.Fail? ==> DeleteAllEpics(s).0.epics == s.epics
  {
    DeleteAllSubtasksSpec(s);
  }

  // ----- deleteTask / deleteEpic / deleteSubtask -----

  /**
   * `deleteTask`: afterwards no index entry and no history entry carries the
   * id, and the task map lacks it; the other entries stay. An absent id
   * fails with `NotFoundException`, after the index and history removals.
   */
  lemma DeleteTaskSpec(s: Store, id: int)
    requires Inv(s)
    ensures Inv(DeleteTask(s, id).0)
    ensures Ordered(s) ==> Ordered(DeleteTask(s, id).0)
    ensures DeleteTask(s, id).1 == if id in s.tasks then Ok(s.tasks[id]) else Err(NotFound(id))
    ensures var s' := DeleteTask(s, id).0;
      s'.tasks == s.tasks - {id} && s'.epics == s.epics && s'.subtasks == s.subtasks &&
      s'.lastTaskId == s.lastTaskId &&
      (forall x :: x in s'.prioritized <==> x in s.prioritized && x.id != id) &&
      !HasId(s'.history, id) && (forall x :: x != id ==> (HasId(s'.history, x) <==> HasId(s.history, x)))
  {
    RemoveIdSpec(s.prioritized, id);
    WithoutSpec(s.history, id);
  }

  /** One cascade step keeps the invariant and the order, and drops the id from the index, history and map. */
  lemma DropSubtaskSpec(s: Store, sid: int)
    requires Inv(s)
    ensures var s' := DropSubtask(s, sid);
      Inv(s') && (Ordered(s) ==> Ordered(s')) &&
      s'.subtasks == s.subtasks - {sid} && s'.tasks == s.tasks && s'.epics == s.epics &&
      s'.lastTaskId == s.lastTaskId &&
      (forall x :: x in s'.prioritized <==> x in s.prioritized && x.id != sid) &&
      !HasId(s'.history, sid) && (forall x :: x != sid ==> (HasId(s'.history, x) <==> HasId(s.history, x)))
  {
    RemoveIdSpec(s.prioritized, sid);
    WithoutSpec(s.history, sid);
  }

  /** `m'` is `m` without the keys listed in `ids`. */
  ghost predicate Dropped(m': map<int, Item>, m: map<int, Item>, ids: seq<int>)
  {
    forall k :: (k in m' <==> k in m && k !in ids) && (k in m' ==> m'[k] == m[k])
  }

  /** The whole cascade: every listed id leaves the index, the history and the subtask map; nothing else does. */
  lemma DropSubtasksSpec(s: Store, ids: seq<int>)
    requires Inv(s)
    ensures var s' := DropSubtasks(s, ids);
      Inv(s') && (Ordered(s) ==> Ordered(s')) &&
      s'.tasks == s.tasks && s'.epics == s.epics && s'.lastTaskId == s.lastTaskId
    ensures var s' := DropSubtasks(s, ids);
      Dropped(s'.subtasks, s.subtasks, ids) &&
      (forall x :: x in s'.prioritized <==> x in s.prioritized && x.id !in ids) &&
      (forall x :: HasId(s'.history, x) <==> HasId(s.history, x) && x !in ids)
  {
    DropSubtasksKeeps(s, ids);
    DropSubtasksDrops(s, ids);
  }

  /** The cascade keeps the invariant, the order, the tasks, the epics and the counter. */
  lemma {:induction false} DropSubtasksKeeps(s: Store, ids: seq<int>)
    requires Inv(s)
    ensures var s' := DropSubtasks(s, ids);
      Inv(s') && (Ordered(s) ==> Ordered(s')) &&
      s'.tasks == s.tasks && s'.epics == s.epics && s'.lastTaskId == s.lastTaskId
  {
    if ids != [] {
      var init := ids[..|ids| - 1];
      DropSubtasksKeeps(s, init);
      DropSubtaskSpec(DropSubtasks(s, init), ids[|ids| - 1]);
    }
  }

  /** The cascade takes exactly the listed ids out of the subtask map, the index and the history. */
  lemma {:induction false} DropSubtasksDrops(s: Store, ids: seq<int>)
    requires UniqueIds(s.history)
    ensures var s' := DropSubtasks(s, ids);
      Dropped(s'.subtasks, s.subtasks, ids) &&
      (forall x :: x in s'.prioritized <==> x in s.prioritized && x.id !in ids) &&
      (forall x :: HasId(s'.history, x) <==> HasId(s.history, x) && x !in ids) &&
      UniqueIds(s'.history)
  {
    if ids != [] {
      var init := ids[..|ids| - 1];
      var sid := ids[|ids| - 1];
      DropSubtasksDrops(s, init);
      var s1 := DropSubtasks(s, init);
      RemoveIdSpec(s1.prioritized, sid);
      WithoutSpec(s1.history, sid);
      assert ids == init + [sid];
      var s2 := DropSubtask(s1, sid);
      DroppedStep(s.subtasks, s1.subtasks, init, sid);
      IndexStep(s.prioritized, s1.prioritized, s2.prioritized, init, sid);
      HistoryStep(s.history, s1.history, s2.history, init, sid);
    }
  }

  /** One more id off the index extends a removal by a list to the longer list. */
  lemma IndexStep(p: seq<Item>, p1: seq<Item>, p2: seq<Item>, init: seq<int>, sid: int)
    requires forall x :: x in p1 <==> x in p && x.id !in init
    requires forall x :: x in p2 <==> x in p1 && x.id != sid
    ensures forall x :: x in p2 <==> x in p && x.id !in init + [sid]
  {
    forall x: Item ensures x.id in init + [sid] <==> x.id in init || x.id == sid {
    }
  }

  /** One more id off the history extends a removal by a list to the longer list. */
  lemma HistoryStep(h: seq<Item>, h1: seq<Item>, h2: seq<Item>, init: seq<int>, sid: int)
    requires forall x :: HasId(h1, x) <==> HasId(h, x) && x !in init
    requires !HasId(h2, sid) && forall x :: x != sid ==> (HasId(h2, x) <==> HasId(h1, x))
    ensures forall x :: HasId(h2, x) <==> HasId(h, x) && x !in init + [sid]
  {
    forall x ensures x in init + [sid] <==> x in init || x == sid {
    }
  }

  /** Dropping one more key extends a drop by a list to the longer list. */
  lemma DroppedStep(m: map<int, Item>, m1: map<int, Item>, init: seq<int>, sid: int)
    requires Dropped(m1, m, init)
    ensures Dropped(m1 - {sid}, m, init + [sid])
  {
    forall k ensures k in init + [sid] <==> k in init || k == sid {
    }
  }

  /**
   * `deleteEpic`: an absent id fails with `NotFoundException` and changes
   * nothing; otherwise the epic leaves the map and the history, and each of
   * its listed subtasks leaves the map, the index and the history.
   */
  lemma DeleteEpicSpec(s: Store, id: int)
    requires Inv(s)
    ensures Inv(DeleteEpic(s, id).0)
    ensures Ordered(s) ==> Ordered(DeleteEpic(s, id).0)
    ensures id !in s.epics ==> DeleteEpic(s, id) == (s, Err(NotFound(id)))
    ensures id in s.epics ==>
      var (s', r) := DeleteEpic(s, id);
      var listed := s.epics[id].subtaskIds;
      r == Ok(s.epics[id]) && s'.epics == s.epics - {id} && !HasId(s'.history, id) &&
      Dropped(s'.subtasks, s.subtasks, listed) && s'.tasks == s.tasks &&
      (forall x :: x in s'.prioritized <==> x in s.prioritized && x.id !in listed) &&
      (forall x :: x in listed ==> !HasId(s'.history, x)) &&
      (forall x :: x != id && x !in listed ==> (HasId(s'.history, x) <==> HasId(s.history, x)))
  {
    if id in s.epics {
      WithoutSpec(s.history, id);
      var s1 := s.(epics := s.epics - {id}, history := Without(s.history, id));
      DropSubtasksSpec(s1, s.epics[id].subtaskIds);
      var s' := DropSubtasks(s1, s.epics[id].subtaskIds);
      assert !HasId(s'.history, id) by {
        assert !HasId(s1.history, id);
      }
    }
  }

  /**
   * `deleteSubtask`: an absent id fails with `NotFoundException` and changes
   * nothing; otherwise the subtask leaves the map, the index and the
   * history. A missing epic then fails with a null pointer. Otherwise the id
   * leaves the epic's list, and an epic left with none is deleted with its
   * history entry, while an epic left with ids keeps its key with the shorter
   * list and every other epic stays as it was.
   */
  lemma DeleteSubtaskSpec(s: Store, id: int)
    requires Inv(s)
    ensures Inv(DeleteSubtask(s, id).0)
    ensures Ordered(s) ==> Ordered(DeleteSubtask(s, id).0)
    ensures id !in s.subtasks ==> DeleteSubtask(s, id) == (s, Err(NotFound(id)))
    ensures id in s.subtasks ==>
      var s' := DeleteSubtask(s, id).0;
      s'.subtasks == s.subtasks - {id} && s'.tasks == s.tasks && s'.lastTaskId == s.lastTaskId &&
      (forall x :: x in s'.prioritized <==> x in s.prioritized && x.id != id) &&
      !HasId(s'.history, id)
    ensures id in s.subtasks && s.subtasks[id].epicId !in s.epics ==>
      DeleteSubtask(s, id).1 == Err(NullPointer) && DeleteSubtask(s, id).0.epics == s.epics
    ensures id in s.subtasks && s.subtasks[id].epicId in s.epics ==>
      var (s', r) := DeleteSubtask(s, id);
      var e := s.subtasks[id].epicId;
      var left := EpicState.RemoveSubtaskId(s.epics[e].subtaskIds, id);
      (left == [] ==> r == Ok(s.subtasks[id]) && s'.epics == s.epics - {e} && !HasId(s'.history, e)) &&
      (left != [] ==> (s'.epics.Keys == s.epics.Keys && s'.epics[e].subtaskIds == left &&
        (forall k :: k in s.epics && k != e ==> s'.epics[k] == s.epics[k]) &&
        s'.history == Without(s.history, id) && (r.Err? ==> r.error == NullPointer) &&
        (r.Ok? ==> Recomputed(s'.epics[e], s'.subtasks))))
  {
    if id in s.subtasks {
      RemoveIdSpec(s.prioritized, id);
      WithoutSpec(s.history, id);
      if s.subtasks[id].epicId in s.epics {
        var e := s.subtasks[id].epicId;
        if EpicState.RemoveSubtaskId(s.epics[e].subtaskIds, id) == [] {
          DeleteSubtaskEmptiesParent(s, id);
        } else {
          DeleteSubtaskKeepsParent(s, id);
        }
      }
    }
  }

  /** `deleteSubtask` when the parent epic is left with no ids: the epic goes with its history entry. */
  lemma DeleteSubtaskEmptiesParent(s: Store, id: int)
    requires Inv(s) && id in s.subtasks && s.subtasks[id].epicId in s.epics
    requires EpicState.RemoveSubtaskId(s.epics[s.subtasks[id].epicId].subtaskIds, id) == []
    ensures var (s', r) := DeleteSubtask(s, id);
      var e := s.subtasks[id].epicId;
      Inv(s') && r == Ok(s.subtasks[id]) && s'.epics == s.epics - {e} &&
      !HasId(s'.history, e) && !HasId(s'.history, id)
  {
    var r := s.subtasks[id];
    RemoveIdSpec(s.prioritized, id);
    WithoutSpec(s.history, id);
    WithoutSpec(Without(s.history, id), r.epicId);
  }

  /**
   * `deleteSubtask` when the parent epic keeps ids: only the parent is
   * written back, with the shorter list and, on success, the state its
   * remaining subtasks give.
   */
  lemma DeleteSubtaskKeepsParent(s: Store, id: int)
    requires Inv(s) && id in s.subtasks && s.subtasks[id].epicId in s.epics
    requires EpicState.RemoveSubtaskId(s.epics[s.subtasks[id].epicId].subtaskIds, id) != []
    ensures var (s', r) := DeleteSubtask(s, id);
      var e := s.subtasks[id].epicId;
      Inv(s') && s'.epics.Keys == s.epics.Keys &&
      s'.epics[e].subtaskIds == EpicState.RemoveSubtaskId(s.epics[e].subtaskIds, id) &&
      (forall k :: k in s.epics && k != e ==> s'.epics[k] == s.epics[k]) &&
      s'.history == Without(s.history, id) && (r.Err? ==> r.error == NullPointer) &&
      (r.Ok? ==> Recomputed(s'.epics[e], s'.subtasks))
  {
    var r := s.subtasks[id];
    RemoveIdSpec(s.prioritized, id);
    WithoutSpec(s.history, id);
    var e1 := s.epics[r.epicId].(subtaskIds := EpicState.RemoveSubtaskId(s.epics[r.epicId].subtaskIds, r.id));
    var subs := SubtasksByIds(s.subtasks - {id}, e1.subtaskIds);
    EpicState.CalculateStateFrame(e1, subs);
    RecalculatedFollows(e1, s.subtasks - {id});
    var e2 := EpicState.CalculateState(e1, subs).0;
    assert DeleteSubtask(s, id).0.epics == s.epics[r.epicId := e2];
  }
}
