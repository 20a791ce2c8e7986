/**
 * A task, subtask or epic object whose setters update its fields in place
 * (`tasks/Task`, `tasks/Subtask`, `tasks/Epic`). `Value` reads the object as
 * the `Item` value the rest of the model works on.
 */
module TaskObjects {
  import opened Wrappers
  import opened TaskStatuses
  import opened Tasks
  import EpicState

  class TaskObject {
    /** The runtime class, fixed at construction. */
    const kind: Kind
    /** `Subtask.epicId`, final; 0 on the other classes. */
    const epicId: int
    var id: int
    var name: string
    var description: string
    var status: Status
    var startTime: Option<int>
    var duration: nat
    /** `Epic.endTime`; unused on the other classes. */
    var endTime: Option<int>
    /** `Epic.subtaskIds`; unused on the other classes. */
    var subtaskIds: seq<int>

    function Value(): Item
      reads this
    {
      match kind
      case TASK => Task(id, name, description, status, startTime, duration)
      case SUBTASK => Subtask(id, name, description, status, startTime, duration, epicId)
      case EPIC => Epic(id, name, description, status, startTime, duration, endTime, subtaskIds)
    }

    /** The five-argument `Task` constructor: start time as given, duration in minutes, id 0. */
    constructor Scheduled(name: string, description: string, status: Status, startTime: Option<int>, durationMinute: nat)
      ensures kind == TASK
      ensures Value() == Task(0, name, description, status, startTime, durationMinute)
    {
      this.kind, this.epicId := TASK, 0;
      this.id := 0;
      this.name, this.description, this.status := name, description, status;
      this.duration := durationMinute;
      this.startTime := startTime;
      this.endTime, this.subtaskIds := None, [];
    }

    /** The three-argument `Task` constructor: no start time and zero duration. */
    constructor Unscheduled(name: string, description: string, status: Status)
      ensures kind == TASK
      ensures Value() == Task(0, name, description, status, None, 0)
    {
      this.kind, this.epicId := TASK, 0;
      this.id := 0;
      this.name, this.description, this.status := name, description, status;
      this.duration := 0;
      this.startTime := None;
      this.endTime, this.subtaskIds := None, [];
    }

    /** The `Subtask` constructor: the `Task` fields as the five-argument constructor sets them, plus the final epic id. */
    constructor SubtaskOf(name: string, description: string, status: Status, epicId: int,
                          startTime: Option<int>, durationMinute: nat)
      ensures kind == SUBTASK && this.epicId == epicId
      ensures Value() == Subtask(0, name, description, status, startTime, durationMinute, epicId)
    {
      this.kind, this.epicId := SUBTASK, epicId;
      this.id := 0;
      this.name, this.description, this.status := name, description, status;
      this.duration := durationMinute;
      this.startTime := startTime;
      this.endTime, this.subtaskIds := None, [];
    }

    /** The `Epic` constructor: the three-argument `Task` constructor and an empty id list. */
    constructor EpicOf(name: string, description: string, status: Status)
      ensures kind == EPIC
      ensures Value() == Epic(0, name, description, status, None, 0, None, [])
    {
      this.kind, this.epicId := EPIC, 0;
      this.id := 0;
      this.name, this.description, this.status := name, description, status;
      this.duration := 0;
      this.startTime := None;
      this.endTime, this.subtaskIds := None, [];
    }

    method SetId(id: int)
      modifies this`id
      ensures this.id == id
      ensures Value() == WithId(old(Value()), id)
    {
      this.id := id;
    }

    method SetName(name: string)
      modifies this`name
      ensures this.name == name
      ensures Value() == WithFields(old(Value()), name, description, status, startTime, duration)
    {
      this.name := name;
    }

    method SetDescription(description: string)
      modifies this`description
      ensures this.description == description
      ensures Value() == WithFields(old(Value()), name, description, status, startTime, duration)
    {
      this.description := description;
    }

    /** `setStatus`; the `Epic` override ignores the argument and changes nothing. */
    method SetStatus(status: Status)
      modifies this`status
      ensures kind == EPIC ==> Value() == old(Value())
      ensures kind != EPIC ==> this.status == status
      ensures Value() == WithFields(old(Value()), name, description, this.status, startTime, duration)
    {
      if kind != EPIC {
        this.status := status;
      }
    }

    method SetStartTime(startTime: Option<int>)
      modifies this`startTime
      ensures this.startTime == startTime
      ensures Value() == WithFields(old(Value()), name, description, status, startTime, duration)
    {
      this.startTime := startTime;
    }

    method SetDuration(duration: nat)
      modifies this`duration
      ensures this.duration == duration
      ensures Value() == WithFields(old(Value()), name, description, status, startTime, duration)
    {
      this.duration := duration;
    }

    /** `Epic.addSubtaskId`: appends the id unless it is already listed. */
    method AddSubtaskId(id: int)
      requires kind == EPIC
      modifies this`subtaskIds
      ensures subtaskIds == EpicState.AddSubtaskId(old(subtaskIds), id)
    {
      if id !in subtaskIds {
        subtaskIds := subtaskIds + [id];
      }
    }

    /** `Epic.removeSubtaskId`: removes the first occurrence of the id. */
    method RemoveSubtaskId(id: int)
      requires kind == EPIC
      modifies this`subtaskIds
      ensures subtaskIds == EpicState.RemoveSubtaskId(old(subtaskIds), id)
    {
      subtaskIds := EpicState.RemoveSubtaskId(subtaskIds, id);
    }

    /**
     * `Epic.calculateState`: the status, then duration, start and end, as
     * `Recalculated` computes them, set on the object. `ok` is false where
     * Java throws a NullPointerException, and the fields then hold what was
     * set before the throw.
     */
    method CalculateState(subtasks: seq<Option<Item>>) returns (ok: bool)
      requires kind == EPIC
      modifies this`status, this`duration, this`startTime, this`endTime
      ensures (Value(), ok) == EpicState.CalculateState(old(Value()), subtasks)
    {
      var r := Recalculated(Value(), subtasks);
      status, startTime, duration, endTime := r.0.status, r.0.startTime, r.0.duration, r.0.endTime;
      ok := r.1;
    }
  }

  /**
   * The four streams of `calculateState` run on an epic value, each a loop
   * of its own; a null subtask or start stops the run with the fields set
   * so far.
   */
  method Recalculated(epic: Item, subtasks: seq<Option<Item>>) returns (r: (Item, bool))
    requires epic.Epic?
    ensures r == EpicState.CalculateState(epic, subtasks)
  {
    var s := GetStatusBySubtasks(EpicState.Statuses(subtasks));
    if s.None? {
      return (epic, false);
    }
    var total := SumDurations(subtasks);
    if total.None? {
      return (EpicState.Derived(epic, s.value, epic.startTime, epic.duration, epic.endTime), false);
    }
    var items := EpicState.Present(subtasks).value;
    assert EpicState.Present(subtasks) == Some(items);
    var times := TimesOf(items, total.value);
    if times.2 {
      r := (EpicState.Derived(epic, s.value, times.0, total.value, times.1), true);
    } else {
      r := (EpicState.Derived(epic, s.value, epic.startTime, total.value, epic.endTime), false);
    }
    EpicState.CalculateStateSplit(epic, subtasks, s.value, items);
  }

  /**
   * The start and end streams over subtasks that all exist: the new start
   * and end, and false where a start is null; a null start leaves the
   * epic's old start and end, which the caller passes through.
   */
  method TimesOf(items: seq<Item>, total: nat) returns (r: (Option<int>, Option<int>, bool))
    ensures r == EpicState.Times(items, total)
  {
    if items == [] {
      EpicState.StartsSpec(items);
      return (None, None, true);
    }
    var first := MinStart(items);
    if first.None? {
      return (None, None, false);
    }
    var last := MaxEnd(items, total);
    r := (first, Some(last), true);
  }

  /**
   * The duration stream of `calculateAndSetTimeFields`: the sum of the
   * subtasks' durations, `None` when an element is null.
   */
  method SumDurations(subtasks: seq<Option<Item>>) returns (total: Option<nat>)
    ensures total.None? <==> EpicState.Present(subtasks).None?
    ensures total.Some? ==> total.value == EpicState.TotalDuration(EpicState.Present(subtasks).value)
  {
    var sum: nat := 0;
    for i := 0 to |subtasks|
      invariant EpicState.Present(subtasks[i..]).Some? <==> EpicState.Present(subtasks).Some?
      invariant EpicState.Present(subtasks).Some? ==>
        sum + EpicState.TotalDuration(EpicState.Present(subtasks[i..]).value) ==
        EpicState.TotalDuration(EpicState.Present(subtasks).value)
    {
      PresentStep(subtasks, i);
      if subtasks[i].None? {
        return None;
      }
      sum := sum + subtasks[i].value.duration;
    }
    assert subtasks[|subtasks|..] == [];
    return Some(sum);
  }

  /**
   * The start-time stream: the earliest subtask start, `None` when a start
   * is null.
   */
  method MinStart(items: seq<Item>) returns (r: Option<int>)
    requires items != []
    ensures r.None? <==> EpicState.Starts(items).None?
    ensures r.Some? ==> r.value == EpicState.Earliest(EpicState.Starts(items).value)
  {
    EpicState.StartsSpec(items);
    var first := 0;
    for i := 0 to |items|
      invariant forall j :: 0 <= j < i ==> items[j].startTime.Some?
      invariant 0 < i ==> (exists j :: 0 <= j < i && items[j].startTime == Some(first))
      invariant forall j :: 0 <= j < i ==> first <= items[j].startTime.value
    {
      if items[i].startTime.None? {
        return None;
      }
      if i == 0 || items[i].startTime.value < first {
        first := items[i].startTime.value;
      }
    }
    LeastIsEarliest(EpicState.Starts(items).value, first);
    return Some(first);
  }

  /**
   * The end-time stream: the latest of each subtask's start plus the epic's
   * whole duration.
   */
  method MaxEnd(items: seq<Item>, total: nat) returns (last: int)
    requires items != [] && EpicState.Starts(items).Some?
    ensures last == EpicState.Latest(EpicState.Starts(items).value) + total
  {
    EpicState.StartsSpec(items);
    last := 0;
    for i := 0 to |items|
      invariant 0 < i ==> (exists j :: 0 <= j < i && items[j].startTime.value + total == last)
      invariant forall j :: 0 <= j < i ==> items[j].startTime.value + total <= last
    {
      if i == 0 || items[i].startTime.value + total > last {
        last := items[i].startTime.value + total;
      }
    }
    LatestIsGreatest(EpicState.Starts(items).value, last - total);
  }

  /** One step of the loop over a list with possible null elements. */
  lemma PresentStep(subs: seq<Option<Item>>, i: nat)
    requires i < |subs|
    ensures subs[i].None? ==> EpicState.Present(subs[i..]).None?
    ensures subs[i].Some? ==> (EpicState.Present(subs[i..]).Some? <==> EpicState.Present(subs[i + 1..]).Some?)
    ensures subs[i].Some? && EpicState.Present(subs[i..]).Some? ==>
      EpicState.TotalDuration(EpicState.Present(subs[i..]).value) ==
      subs[i].value.duration + EpicState.TotalDuration(EpicState.Present(subs[i + 1..]).value)
  {
    assert subs[i..][1..] == subs[i + 1..];
    if subs[i].Some? && EpicState.Present(subs[i..]).Some? {
      var rest := EpicState.Present(subs[i + 1..]).value;
      assert ([subs[i].value] + rest)[1..] == rest;
    }
  }

  /** A value in the list that is at most every element is `Earliest`. */
  lemma LeastIsEarliest(s: seq<int>, m: int)
    requires s != [] && m in s && forall j :: 0 <= j < |s| ==> m <= s[j]
    ensures EpicState.Earliest(s) == m
  {
    var e := EpicState.Earliest(s);
    var k :| 0 <= k < |s| && s[k] == m;
    var l :| 0 <= l < |s| && s[l] == e;
  }

  /** A value in the list that is at least every element is `Latest`. */
  lemma LatestIsGreatest(s: seq<int>, m: int)
    requires s != [] && m in s && forall j :: 0 <= j < |s| ==> s[j] <= m
    ensures EpicState.Latest(s) == m
  {
    var e := EpicState.Latest(s);
    var k :| 0 <= k < |s| && s[k] == m;
    var l :| 0 <= l < |s| && s[l] == e;
  }
}
