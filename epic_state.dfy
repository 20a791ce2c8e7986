/**
 * What `tasks/Epic` derives from its subtasks, as functions on values:
 * the duplicate-free id list and the state recomputed by `calculateState`.
 */
module EpicState {
  import opened Wrappers
  import opened Seqs
  import opened TaskStatuses
  import opened Tasks

  /** `addSubtaskId`: appends the id unless the list already holds it. */
  function AddSubtaskId(ids: seq<int>, id: int): (r: seq<int>)
  {
    if id in ids then ids else ids + [id]
  }

  /** Adding keeps the list duplicate-free, keeps the old order and makes the id present. */
  lemma AddSubtaskIdKeepsDistinct(ids: seq<int>, id: int)
    requires Distinct(ids)
    ensures Distinct(AddSubtaskId(ids, id))
    ensures id in AddSubtaskId(ids, id)
    ensures forall x :: x in AddSubtaskId(ids, id) <==> x in ids || x == id
    ensures AddSubtaskId(ids, id)[..|ids|] == ids
    ensures |AddSubtaskId(ids, id)| == if id in ids then |ids| else |ids| + 1
  {
  }

  /** `removeSubtaskId`: `List.remove(Object)`, the first occurrence by value. */
  function RemoveSubtaskId(ids: seq<int>, id: int): (r: seq<int>)
  {
    RemoveFirst(ids, id)
  }

  /** Removing keeps a duplicate-free list duplicate-free and takes out exactly that id. */
  lemma RemoveSubtaskIdKeepsDistinct(ids: seq<int>, id: int)
    requires Distinct(ids)
    ensures Distinct(RemoveSubtaskId(ids, id))
    ensures forall x :: x in RemoveSubtaskId(ids, id) <==> x in ids && x != id
    ensures id in ids ==> |RemoveSubtaskId(ids, id)| == |ids| - 1
    ensures id !in ids ==> RemoveSubtaskId(ids, id) == ids
  {
    RemoveFirstDistinct(ids, id);
    RemoveFirstCutsFirstOccurrence(ids, id);
  }

  /** The statuses the status loop reads; `None` for a null list element. */
  function Statuses(subs: seq<Option<Item>>): (r: seq<Option<Status>>)
  {
    if subs == [] then [] else [if subs[0].None? then None else Some(subs[0].value.status)] + Statuses(subs[1..])
  }

  /** The list elements, or `None` when one of them is null. */
  function Present(subs: seq<Option<Item>>): (r: Option<seq<Item>>)
  {
    if subs == [] then Some([])
    else if subs[0].None? then None
    else match Present(subs[1..])
      case None => None
      case Some(rest) => Some([subs[0].value] + rest)
  }

  /** Each item as a non-null list element. */
  function Wrap(items: seq<Item>): (r: seq<Option<Item>>)
  {
    if items == [] then [] else [Some(items[0])] + Wrap(items[1..])
  }

  /** The statuses of the items. */
  function StatusList(items: seq<Item>): (r: seq<Status>)
  {
    if items == [] then [] else [items[0].status] + StatusList(items[1..])
  }

  /** A list without nulls gives back its items and their statuses. */
  lemma {:induction false} WrapIsPresent(items: seq<Item>)
    ensures Present(Wrap(items)) == Some(items)
    ensures Statuses(Wrap(items)) == Lift(StatusList(items))
  {
    if items != [] {
      WrapIsPresent(items[1..]);
      assert Wrap(items)[1..] == Wrap(items[1..]);
      assert items == [items[0]] + items[1..];
      assert Lift(StatusList(items))[1..] == Lift(StatusList(items[1..]));
    }
  }

  /** The sum of the durations (`reduce(Duration.ZERO, Duration::plus)`). */
  function TotalDuration(items: seq<Item>): (d: nat)
  {
    if items == [] then 0 else items[0].duration + TotalDuration(items[1..])
  }

  lemma {:induction false} TotalDurationCoversEach(items: seq<Item>, i: nat)
    requires i < |items|
    ensures items[i].duration <= TotalDuration(items)
  {
    if i > 0 {
      TotalDurationCoversEach(items[1..], i - 1);
    }
  }

  /** Every start time of the items, or `None` if one of them is null. */
  function Starts(items: seq<Item>): (r: Option<seq<int>>)
  {
    if items == [] then Some([])
    else if items[0].startTime.None? then None
    else match Starts(items[1..])
      case None => None
      case Some(rest) => Some([items[0].startTime.value] + rest)
  }

  /** The start times are collected exactly when none is null, in list order. */
  lemma {:induction false} StartsSpec(items: seq<Item>)
    ensures Starts(items).Some? <==> forall i :: 0 <= i < |items| ==> items[i].startTime.Some?
    ensures Starts(items).Some? ==> |Starts(items).value| == |items|
    ensures Starts(items).Some? ==>
      forall i :: 0 <= i < |items| ==> items[i].startTime == Some(Starts(items).value[i])
  {
    if items != [] {
      StartsSpec(items[1..]);
      if items[0].startTime.Some? && Starts(items[1..]).None? {
        var i :| 0 <= i < |items[1..]| && items[1..][i].startTime.None?;
        assert items[i + 1].startTime.None?;
      }
      if Starts(items).Some? {
        forall i | 0 <= i < |items| ensures items[i].startTime == Some(Starts(items).value[i]) {
          if i > 0 { assert items[i] == items[1..][i - 1]; }
        }
      }
    }
  }

  /** `min(Comparator.naturalOrder())` over a non-empty list of times. */
  function Earliest(s: seq<int>): (m: int)
    requires s != []
    ensures m in s && forall i :: 0 <= i < |s| ==> m <= s[i]
  {
    if |s| == 1 then s[0]
    else
      var rest := Earliest(s[1..]);
      assert forall i :: 1 <= i < |s| ==> s[i] == s[1..][i - 1];
      if s[0] <= rest then s[0] else rest
  }

  /** `max(Comparator.naturalOrder())` over a non-empty list of times. */
  function Latest(s: seq<int>): (m: int)
    requires s != []
    ensures m in s && forall i :: 0 <= i < |s| ==> s[i] <= m
  {
    if |s| == 1 then s[0]
    else
      var rest := Latest(s[1..]);
      assert forall i :: 1 <= i < |s| ==> s[i] == s[1..][i - 1];
      if s[0] >= rest then s[0] else rest
  }

  /** The epic with new status and time fields and everything else kept. */
  function Derived(epic: Item, status: Status, startTime: Option<int>, duration: nat, endTime: Option<int>): (r: Item)
    requires epic.Epic?
    ensures r.Epic? && r.id == epic.id && r.name == epic.name && r.description == epic.description
    ensures r.subtaskIds == epic.subtaskIds
    ensures r.status == status && r.startTime == startTime && r.duration == duration && r.endTime == endTime
  {
    Epic(epic.id, epic.name, epic.description, status, startTime, duration, endTime, epic.subtaskIds)
  }

  /**
   * `calculateState` on an epic value: the status first, then duration, start
   * and end. A null subtask or a null subtask start raises a
   * NullPointerException; the fields assigned before it keep their new values,
   * and the flag is false.
   */
  function CalculateState(epic: Item, subs: seq<Option<Item>>): (r: (Item, bool))
    requires epic.Epic?
  {
    var status := StatusBySubtasks(Statuses(subs));
    if status.None? then (epic, false)
    else match Present(subs)
      case None => (Derived(epic, status.value, epic.startTime, epic.duration, epic.endTime), false)
      case Some(items) =>
        var total := TotalDuration(items);
        match Starts(items)
        case None => (Derived(epic, status.value, epic.startTime, total, epic.endTime), false)
        case Some(starts) =>
          if starts == [] then (Derived(epic, status.value, None, total, None), true)
          else (Derived(epic, status.value, Some(Earliest(starts)), total, Some(Latest(starts) + total)), true)
  }

  /**
   * The start and end `calculateState` gives subtasks that all exist, and
   * false where one of them has no start.
   */
  function Times(items: seq<Item>, total: nat): (r: (Option<int>, Option<int>, bool))
  {
    match Starts(items)
    case None => (None, None, false)
    case Some(starts) =>
      if starts == [] then (None, None, true) else (Some(Earliest(starts)), Some(Latest(starts) + total), true)
  }

  /** Past the status and duration streams, `calculateState` is down to the start and end. */
  lemma CalculateStateSplit(epic: Item, subs: seq<Option<Item>>, status: Status, items: seq<Item>)
    requires epic.Epic? && StatusBySubtasks(Statuses(subs)) == Some(status) && Present(subs) == Some(items)
    ensures var t := Times(items, TotalDuration(items));
      CalculateState(epic, subs) ==
        if t.2 then (Derived(epic, status, t.0, TotalDuration(items), t.1), true)
        else (Derived(epic, status, epic.startTime, TotalDuration(items), epic.endTime), false)
  {
  }

  /**
   * The recomputation touches only status and time fields, keeps the id, name,
   * description and subtask ids, and on an epic with no subtasks resets it to
   * NEW, no start, zero duration and no end.
   */
  lemma CalculateStateFrame(epic: Item, subs: seq<Option<Item>>)
    requires epic.Epic?
    ensures var e := CalculateState(epic, subs).0;
      e.Epic? && e.id == epic.id && e.name == epic.name && e.description == epic.description &&
      e.subtaskIds == epic.subtaskIds
    ensures subs == [] ==>
      CalculateState(epic, subs) == (Derived(epic, NEW, None, 0, None), true)
  {
  }

  /** Over subtasks that all exist, status and duration always follow from their fields. */
  lemma CalculateStateOfItems(epic: Item, items: seq<Item>)
    requires epic.Epic?
    ensures CalculateState(epic, Wrap(items)).0.status == Rule(StatusList(items))
    ensures CalculateState(epic, Wrap(items)).0.duration == TotalDuration(items)
    ensures CalculateState(epic, Wrap(items)).1 <==> Starts(items).Some?
  {
    WrapIsPresent(items);
    StatusMatchesRule(StatusList(items));
  }

  /** Over scheduled subtasks the start is the earliest start and the end the latest start plus the total. */
  lemma CalculateStateTimes(epic: Item, items: seq<Item>)
    requires epic.Epic? && items != [] && Starts(items).Some?
    ensures CalculateState(epic, Wrap(items)).0.startTime == Some(Earliest(Starts(items).value))
    ensures CalculateState(epic, Wrap(items)).0.endTime == Some(Latest(Starts(items).value) + TotalDuration(items))
  {
    WrapIsPresent(items);
    StatusMatchesRule(StatusList(items));
  }

  /**
   * When every subtask exists and has a start time: the status follows the
   * status rule, the duration is the total, the start is the earliest subtask
   * start and the end is the LATEST subtask START plus the TOTAL duration.
   */
  lemma {:induction false} CalculateStateOfScheduled(epic: Item, items: seq<Item>)
    requires epic.Epic? && items != []
    requires forall i :: 0 <= i < |items| ==> items[i].startTime.Some?
    ensures CalculateState(epic, Wrap(items)).1
    ensures CalculateState(epic, Wrap(items)).0.status == Rule(StatusList(items))
    ensures CalculateState(epic, Wrap(items)).0.duration == TotalDuration(items)
    ensures CalculateState(epic, Wrap(items)).0.startTime.Some?
    ensures CalculateState(epic, Wrap(items)).0.endTime.Some?
    ensures exists i :: 0 <= i < |items| && items[i].startTime == CalculateState(epic, Wrap(items)).0.startTime
    ensures forall i :: 0 <= i < |items| ==>
      CalculateState(epic, Wrap(items)).0.startTime.value <= items[i].startTime.value
    ensures exists i :: 0 <= i < |items| && items[i].startTime.value + TotalDuration(items) ==
                                          CalculateState(epic, Wrap(items)).0.endTime.value
    ensures forall i :: 0 <= i < |items| ==>
      items[i].startTime.value + TotalDuration(items) <= CalculateState(epic, Wrap(items)).0.endTime.value
  {
    StartsSpec(items);
    CalculateStateOfItems(epic, items);
    CalculateStateTimes(epic, items);
    var e := CalculateState(epic, Wrap(items)).0;
    var starts := Starts(items).value;
    var first, last := Earliest(starts), Latest(starts);
    assert e.startTime == Some(first) && e.endTime == Some(last + TotalDuration(items));
    var k :| 0 <= k < |starts| && starts[k] == first;
    assert items[k].startTime == e.startTime;
    var j :| 0 <= j < |starts| && starts[j] == last;
    assert items[j].startTime.value + TotalDuration(items) == e.endTime.value;
    forall i | 0 <= i < |items|
      ensures e.startTime.value <= items[i].startTime.value
      ensures items[i].startTime.value + TotalDuration(items) <= e.endTime.value
    {
      assert items[i].startTime == Some(starts[i]);
    }
  }

  /**
   * The stored end time is never before the end of any subtask: the latest
   * start plus the total duration is at least each start plus its own duration.
   */
  lemma {:induction false} EpicEndCoversEverySubtask(epic: Item, items: seq<Item>, i: nat)
    requires epic.Epic? && i < |items|
    requires forall j :: 0 <= j < |items| ==> items[j].startTime.Some?
    ensures var e := CalculateState(epic, Wrap(items)).0;
      e.endTime.Some? && items[i].startTime.value + items[i].duration <= e.endTime.value
  {
    CalculateStateOfScheduled(epic, items);
    TotalDurationCoversEach(items, i);
  }

  /**
   * The fields `calculateState` sets from subtasks that all exist and all have
   * a start: the status rule, the total duration, and the earliest start and
   * the latest start plus the total, or no start and no end for no subtasks.
   */
  ghost predicate Follows(e: Item, items: seq<Item>)
  {
    e.Epic? && e.status == Rule(StatusList(items)) && e.duration == TotalDuration(items) &&
    Starts(items).Some? &&
    (Starts(items).value == [] ==> e.startTime == None && e.endTime == None) &&
    (Starts(items).value != [] ==>
      e.startTime == Some(Earliest(Starts(items).value)) &&
      e.endTime == Some(Latest(Starts(items).value) + TotalDuration(items)))
  }

  /** A recomputation over existing subtasks that does not throw leaves the epic in that state. */
  lemma CalculateStateFollows(epic: Item, items: seq<Item>)
    requires epic.Epic?
    ensures CalculateState(epic, Wrap(items)).1 ==> Follows(CalculateState(epic, Wrap(items)).0, items)
  {
    CalculateStateOfItems(epic, items);
    if Starts(items).Some? {
      StartsSpec(items);
      if items != [] {
        CalculateStateTimes(epic, items);
      } else {
        WrapIsPresent(items);
      }
    }
  }

  /** One null element makes the whole list unusable. */
  lemma {:induction false} NullIsNotPresent(subs: seq<Option<Item>>, i: nat)
    requires i < |subs| && subs[i].None?
    ensures Present(subs).None?
  {
    if i > 0 {
      NullIsNotPresent(subs[1..], i - 1);
    }
  }

  /** The list helpers over a two-element list. */
  lemma {:induction false} TwoItems(a: Item, b: Item)
    requires a.startTime.Some? && b.startTime.Some?
    ensures Wrap([a, b]) == [Some(a), Some(b)]
    ensures StatusList([a, b]) == [a.status, b.status]
    ensures Starts([a, b]) == Some([a.startTime.value, b.startTime.value])
    ensures TotalDuration([a, b]) == a.duration + b.duration
  {
    var items := [a, b];
    assert items[1..] == [b] && [b][1..] == [];
    assert Wrap([b]) == [Some(b)] + Wrap([]) == [Some(b)];
    assert Wrap(items) == [Some(a)] + Wrap([b]);
    assert Starts([]) == Some([]);
    assert [b.startTime.value] + [] == [b.startTime.value];
    assert Starts([b]) == Some([b.startTime.value]);
    assert Starts(items) == Some([a.startTime.value] + [b.startTime.value]);
    assert [a.startTime.value] + [b.startTime.value] == [a.startTime.value, b.startTime.value];
    assert StatusList(items) == [a.status] + StatusList([b]);
    assert Starts(items) == Some([a.startTime.value] + Starts([b]).value);
    assert TotalDuration(items) == a.duration + TotalDuration([b]);
  }

  /** The recomputation over two scheduled subtasks, written out. */
  lemma {:induction false} CalculateStateOfTwo(epic: Item, a: Item, b: Item)
    requires epic.Epic? && a.startTime.Some? && b.startTime.Some?
    ensures CalculateState(epic, [Some(a), Some(b)]).1
    ensures CalculateState(epic, [Some(a), Some(b)]).0.status == Rule([a.status, b.status])
    ensures CalculateState(epic, [Some(a), Some(b)]).0.duration == a.duration + b.duration
    ensures CalculateState(epic, [Some(a), Some(b)]).0.startTime ==
      Some(if a.startTime.value <= b.startTime.value then a.startTime.value else b.startTime.value)
    ensures CalculateState(epic, [Some(a), Some(b)]).0.endTime ==
      Some((if a.startTime.value >= b.startTime.value then a.startTime.value else b.startTime.value)
           + a.duration + b.duration)
  {
    TwoItems(a, b);
    CalculateStateOfItems(epic, [a, b]);
    CalculateStateTimes(epic, [a, b]);
    var starts := [a.startTime.value, b.startTime.value];
    assert Earliest(starts) == if a.startTime.value <= b.startTime.value then a.startTime.value else b.startTime.value;
    assert Latest(starts) == if a.startTime.value >= b.startTime.value then a.startTime.value else b.startTime.value;
  }

  /**
   * The stored end time is not the latest subtask end: subtasks 0-10 and
   * 100-110 give an epic ending at 120, not 110.
   */
  lemma EpicEndIsNotLatestSubtaskEnd()
    ensures var a := Subtask(2, "a", "", NEW, Some(0), 10, 1);
      var b := Subtask(3, "b", "", NEW, Some(100), 10, 1);
      CalculateState(Epic(1, "e", "", NEW, None, 0, None, [2, 3]), [Some(a), Some(b)]).0.endTime == Some(120)
  {
    CalculateStateOfTwo(Epic(1, "e", "", NEW, None, 0, None, [2, 3]),
      Subtask(2, "a", "", NEW, Some(0), 10, 1), Subtask(3, "b", "", NEW, Some(100), 10, 1));
  }

  /**
   * The recomputation after two subtasks, one at 22:30 for 30 minutes and one
   * at 21:30 for 60 minutes (minutes 1350 and 1290 of the day): the epic stays
   * NEW, starts at 21:30, lasts 90 minutes and ends at 22:30 plus 90 minutes.
   */
  lemma TwoSubtaskTimeState()
    ensures var later := Subtask(2, "s1", "", NEW, Some(1350), 30, 1);
      var earlier := Subtask(3, "s2", "", NEW, Some(1290), 60, 1);
      var r := CalculateState(Epic(1, "e", "", NEW, None, 0, None, [2, 3]), [Some(later), Some(earlier)]);
      r.1 && r.0.startTime == Some(1290) && r.0.duration == 90 && r.0.endTime == Some(1350 + 90) && r.0.status == NEW
  {
    var later := Subtask(2, "s1", "", NEW, Some(1350), 30, 1);
    var earlier := Subtask(3, "s2", "", NEW, Some(1290), 60, 1);
    CalculateStateOfTwo(Epic(1, "e", "", NEW, None, 0, None, [2, 3]), later, earlier);
    assert DONE !in [NEW, NEW];
  }

  /**
   * A subtask without a start time makes the recomputation fail after the
   * status and the duration have been stored.
   */
  lemma {:induction false} UnscheduledSubtaskFails(epic: Item, items: seq<Item>, i: nat)
    requires epic.Epic? && i < |items| && items[i].startTime.None?
    ensures !CalculateState(epic, Wrap(items)).1
    ensures CalculateState(epic, Wrap(items)).0 ==
      Derived(epic, Rule(StatusList(items)), epic.startTime, TotalDuration(items), epic.endTime)
  {
    StartsSpec(items);
    WrapIsPresent(items);
    StatusMatchesRule(StatusList(items));
  }
}
