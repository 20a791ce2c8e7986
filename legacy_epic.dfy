/**
 * The task and subtask values of the two older packages
 * (`ru.yandex.practicum.task` and `ru.yandex.practicum`). Their `Task` and
 * `Subtask` classes are not part of this model; the fields here are the ones
 * the older epics and managers read and write: an id, a name, a
 * description, a status, and the epic id of a subtask. Those items carry no
 * times.
 */
module LegacyTasks {
  import opened TaskStatuses

  datatype Task = Task(id: int, name: string, description: string, status: Status)

  datatype Subtask = Subtask(id: int, name: string, description: string, status: Status, epicId: int)
}

/**
 * The epic of package `ru.yandex.practicum.task` (`task/Epic`): a list of
 * subtask ids that is not kept duplicate-free, and a status recomputed from
 * subtasks that the manager looks up by those ids.
 */
module LegacyEpics {
  import opened Wrappers
  import opened Seqs
  import opened TaskStatuses
  import opened LegacyTasks

  datatype Epic = Epic(id: int, name: string, description: string, status: Status, subtaskIds: seq<int>)

  /** `addSubtaskId`: appends the id whether or not it is already listed. */
  function AddSubtaskId(e: Epic, id: int): (r: Epic)
    ensures multiset(r.subtaskIds) == multiset(e.subtaskIds) + multiset{id}
    ensures |r.subtaskIds| == |e.subtaskIds| + 1
    ensures r.subtaskIds[..|e.subtaskIds|] == e.subtaskIds && r.subtaskIds[|e.subtaskIds|] == id
    ensures r.(subtaskIds := e.subtaskIds) == e
  {
    var ids := e.subtaskIds + [id];
    assert ids[..|e.subtaskIds|] == e.subtaskIds;
    e.(subtaskIds := ids)
  }

  /** Adding an id already listed lists it twice: the list is not deduplicated. */
  lemma AddingTwiceListsTwice(e: Epic, id: int)
    requires id !in e.subtaskIds
    ensures multiset(AddSubtaskId(AddSubtaskId(e, id), id).subtaskIds)[id] == 2
    ensures |AddSubtaskId(AddSubtaskId(e, id), id).subtaskIds| == |e.subtaskIds| + 2
  {
    assert multiset(e.subtaskIds)[id] == 0;
  }

  /** `removeSubtaskId`: `List.remove(Object)`, the first occurrence of the id. */
  function RemoveSubtaskId(e: Epic, id: int): (r: Epic)
    ensures multiset(r.subtaskIds) == multiset(e.subtaskIds) - multiset{id}
    ensures id !in e.subtaskIds ==> r == e
    ensures id in e.subtaskIds ==>
      r.subtaskIds == e.subtaskIds[..IndexOf(e.subtaskIds, id)] + e.subtaskIds[IndexOf(e.subtaskIds, id) + 1..]
    ensures r.(subtaskIds := e.subtaskIds) == e
  {
    RemoveFirstCutsFirstOccurrence(e.subtaskIds, id);
    RemoveFirstTakesOne(e.subtaskIds, id);
    e.(subtaskIds := RemoveFirst(e.subtaskIds, id))
  }

  /** `List.remove(Object)` takes one occurrence out of the multiset, or none when absent. */
  lemma {:induction false} RemoveFirstTakesOne(s: seq<int>, x: int)
    ensures multiset(RemoveFirst(s, x)) == multiset(s) - multiset{x}
  {
    if s != [] {
      assert s == [s[0]] + s[1..];
      if s[0] != x {
        RemoveFirstTakesOne(s[1..], x);
      }
    }
  }

  /** The statuses the status loop reads; `None` for a null element. */
  function Statuses(subs: seq<Option<Subtask>>): (r: seq<Option<Status>>)
    ensures |r| == |subs|
    ensures forall i :: 0 <= i < |subs| ==> r[i] == if subs[i].None? then None else Some(subs[i].value.status)
  {
    seq(|subs|, i requires 0 <= i < |subs| => if subs[i].None? then None else Some(subs[i].value.status))
  }

  /**
   * `calculateAndSetStatus`: the status `getStatusBySubtasks` gives, and no
   * other field; `None` when the loop dereferences a null element.
   */
  function CalculateAndSetStatus(e: Epic, subs: seq<Option<Subtask>>): (r: Option<Epic>)
    ensures r.Some? ==> r.value.(status := e.status) == e
  {
    match StatusBySubtasks(Statuses(subs))
    case None => None
    case Some(st) => Some(e.(status := st))
  }

  /** The call fails exactly when a null element comes before the first IN_PROGRESS subtask. */
  lemma CalculateAndSetStatusFails(e: Epic, subs: seq<Option<Subtask>>)
    ensures CalculateAndSetStatus(e, subs).None? <==>
      exists k :: 0 <= k < |subs| && subs[k].None? && InProgressBefore(subs, k) == false
  {
    var sts := Statuses(subs);
    ScanFailsAtNull(sts, true);
    forall k | 0 <= k < |subs|
      ensures InProgressBefore(subs, k) <==> Some(IN_PROGRESS) in sts[..k]
    {
      if InProgressBefore(subs, k) {
        var j :| 0 <= j < k && subs[j].Some? && subs[j].value.status == IN_PROGRESS;
        assert sts[..k][j] == sts[j];
      }
    }
  }

  /** Some subtask before position `k` exists and is IN_PROGRESS. */
  predicate InProgressBefore(subs: seq<Option<Subtask>>, k: nat)
    requires k <= |subs|
  {
    exists j :: 0 <= j < k && subs[j].Some? && subs[j].value.status == IN_PROGRESS
  }

  /**
   * Over subtasks that all exist the status is the rule: none gives NEW, any
   * IN_PROGRESS gives IN_PROGRESS, all DONE gives DONE, otherwise NEW.
   */
  lemma CalculateAndSetStatusByRule(e: Epic, subs: seq<Option<Subtask>>)
    requires forall i :: 0 <= i < |subs| ==> subs[i].Some?
    ensures CalculateAndSetStatus(e, subs) == Some(e.(status := Rule(StatusesOf(subs))))
  {
    assert Statuses(subs) == Lift(StatusesOf(subs));
    StatusMatchesRule(StatusesOf(subs));
  }

  /** The statuses of subtasks that all exist. */
  function StatusesOf(subs: seq<Option<Subtask>>): (r: seq<Status>)
    requires forall i :: 0 <= i < |subs| ==> subs[i].Some?
    ensures |r| == |subs| && forall i :: 0 <= i < |subs| ==> r[i] == subs[i].value.status
  {
    seq(|subs|, i requires 0 <= i < |subs| && subs[i].Some? => subs[i].value.status)
  }

}

/** The `task/Epic` object, whose methods update its fields in place. */
module LegacyEpicObjects {
  import opened Wrappers
  import opened Seqs
  import opened TaskStatuses
  import opened LegacyTasks
  import LegacyEpics

  class EpicObject {
    var id: int
    var name: string
    var description: string
    var status: Status
    var subtaskIds: seq<int>

    function Value(): LegacyEpics.Epic
      reads this
    {
      LegacyEpics.Epic(id, name, description, status, subtaskIds)
    }

    /** The three-argument constructor: id 0 and no subtasks. */
    constructor(name: string, description: string, status: Status)
      ensures Value() == LegacyEpics.Epic(0, name, description, status, [])
    {
      this.id := 0;
      this.name, this.description, this.status := name, description, status;
      this.subtaskIds := [];
    }

    method AddSubtaskId(id: int)
      modifies this`subtaskIds
      ensures Value() == LegacyEpics.AddSubtaskId(old(Value()), id)
    {
      subtaskIds := subtaskIds + [id];
    }

    method RemoveSubtaskId(id: int)
      modifies this`subtaskIds
      ensures Value() == LegacyEpics.RemoveSubtaskId(old(Value()), id)
    {
      subtaskIds := RemoveFirst(subtaskIds, id);
    }

    /** `calculateAndSetStatus`; `ok` is false where the loop throws, and then nothing changed. */
    method CalculateAndSetStatus(subtasks: seq<Option<Subtask>>) returns (ok: bool)
      modifies this`status
      ensures ok == LegacyEpics.CalculateAndSetStatus(old(Value()), subtasks).Some?
      ensures Value() == if ok then LegacyEpics.CalculateAndSetStatus(old(Value()), subtasks).value else old(Value())
    {
      var s := GetStatusBySubtasks(LegacyEpics.Statuses(subtasks));
      ok := s.Some?;
      if ok {
        status := s.value;
      }
    }

    /** The `setStatus` override: the argument is ignored and nothing changes. */
    method SetStatus(status: Status)
      ensures Value() == old(Value())
    {
    }
  }
}
