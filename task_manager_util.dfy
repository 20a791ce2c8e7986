/**
 * The defensive copy and the time-overlap validator (`utils/TaskManagerUtil`).
 * A NullPointerException is `None`.
 */
module TaskManagerUtil {
  import opened Wrappers
  import opened TaskStatuses
  import opened Tasks

  /**
   * `getCopyTask`: a fresh object of the same class. An epic copy is rebuilt
   * from name, description and status only; the other classes keep every field.
   */
  function GetCopyTask(t: Item): (c: Item)
    ensures Equal(c, t) && KindOf(c) == KindOf(t)
    ensures c.name == t.name && c.description == t.description && c.status == t.status
    ensures c.Epic? ==> c.subtaskIds == [] && c.startTime == None && c.duration == 0 && c.endTime == None
    ensures !c.Epic? ==> c == t
  {
    match t
    case Epic(id, name, description, status, _, _, _, _) => Epic(id, name, description, status, None, 0, None, [])
    case Subtask(id, name, description, status, startTime, duration, epicId) =>
      Subtask(id, name, description, status, startTime, duration, epicId)
    case Task(id, name, description, status, startTime, duration) =>
      Task(id, name, description, status, startTime, duration)
  }

  /** Copying a copy changes nothing more: the copy is already in its canonical form. */
  lemma CopyIsIdempotent(t: Item)
    ensures GetCopyTask(GetCopyTask(t)) == GetCopyTask(t)
  {
  }

  /**
   * `isIntersectedByTime`: both end times are computed before the null check,
   * so a null start on either side fails and the check itself is never reached.
   * Otherwise the windows `[start, start + duration)` intersect.
   */
  function IsIntersectedByTime(t1: Item, t2: Item): (r: Option<bool>)
    ensures r.None? <==> t1.startTime.None? || t2.startTime.None?
  {
    if t1.startTime.None? || t2.startTime.None? then None
    else
      var start1, start2 := t1.startTime.value, t2.startTime.value;
      var end1, end2 := start1 + t1.duration, start2 + t2.duration;
      Some(!((start1 >= end2) || (end1 <= start2)))
  }

  /** Minute `m` lies in the half-open window `[start, start + duration)` of a scheduled item. */
  ghost predicate InWindow(t: Item, m: int)
  {
    t.startTime.Some? && t.startTime.value <= m < t.startTime.value + t.duration
  }

  /**
   * For windows of positive length the test holds exactly when some minute
   * lies in both half-open windows, and it is symmetric.
   */
  lemma IntersectionSharesAMinute(t1: Item, t2: Item)
    requires t1.startTime.Some? && t2.startTime.Some?
    requires t1.duration > 0 && t2.duration > 0
    ensures IsIntersectedByTime(t1, t2) == IsIntersectedByTime(t2, t1)
    ensures IsIntersectedByTime(t1, t2) == Some(true) <==>
      exists m :: InWindow(t1, m) && InWindow(t2, m)
  {
    var s1, s2 := t1.startTime.value, t2.startTime.value;
    if IsIntersectedByTime(t1, t2) == Some(true) {
      var m := if s1 < s2 then s2 else s1;
      assert InWindow(t1, m) && InWindow(t2, m);
    }
    if exists m :: InWindow(t1, m) && InWindow(t2, m) {
      var m :| InWindow(t1, m) && InWindow(t2, m);
      assert s1 < s2 + t2.duration && s2 < s1 + t1.duration;
    }
  }

  /** A window ending exactly where another starts does not intersect it. */
  lemma TouchingWindowsDoNotIntersect(t1: Item, t2: Item)
    requires t1.startTime.Some? && t2.startTime.Some?
    requires t1.startTime.value + t1.duration == t2.startTime.value
    ensures IsIntersectedByTime(t1, t2) == Some(false)
    ensures IsIntersectedByTime(t2, t1) == Some(false)
  {
  }

  /**
   * `isTimeIntersected`: the stream over the collection skips every element
   * equal to the candidate, tests the rest in order and stops at the first
   * intersection; a test that throws ends the stream with the exception.
   */
  function IsTimeIntersected(task: Item, tasks: seq<Item>): (r: Option<bool>)
  {
    if tasks == [] then Some(false)
    else if Equal(task, tasks[0]) then IsTimeIntersected(task, tasks[1..])
    else match IsIntersectedByTime(tasks[0], task)
      case None => None
      case Some(true) => Some(true)
      case Some(false) => IsTimeIntersected(task, tasks[1..])
  }

  /** The elements the stream actually tests: those not equal to the candidate. */
  ghost predicate Compared(task: Item, t: Item)
  {
    !Equal(task, t)
  }

  /**
   * When the candidate and every compared element have a start time, the
   * result is whether some element other than the candidate intersects it.
   */
  lemma {:induction false} TimeIntersectedIffSomeOtherOverlaps(task: Item, tasks: seq<Item>)
    requires task.startTime.Some?
    requires forall i :: 0 <= i < |tasks| && Compared(task, tasks[i]) ==> tasks[i].startTime.Some?
    ensures IsTimeIntersected(task, tasks) ==
      Some(exists i :: 0 <= i < |tasks| && Compared(task, tasks[i]) && IsIntersectedByTime(tasks[i], task) == Some(true))
  {
    if tasks != [] {
      TimeIntersectedIffSomeOtherOverlaps(task, tasks[1..]);
      assert forall i :: 1 <= i < |tasks| ==> tasks[i] == tasks[1..][i - 1];
      if !Compared(task, tasks[0]) || IsIntersectedByTime(tasks[0], task) == Some(false) {
        if exists i :: 0 <= i < |tasks| && Compared(task, tasks[i]) && IsIntersectedByTime(tasks[i], task) == Some(true) {
          var i :| 0 <= i < |tasks| && Compared(task, tasks[i]) && IsIntersectedByTime(tasks[i], task) == Some(true);
          assert i != 0;
          assert tasks[1..][i - 1] == tasks[i];
        }
      }
    }
  }

  /**
   * The null check never helps a candidate without a start: as soon as the
   * collection holds one element it is compared with, the call fails.
   */
  lemma {:induction false} UnscheduledCandidateFails(task: Item, tasks: seq<Item>)
    requires task.startTime.None?
    requires exists i :: 0 <= i < |tasks| && Compared(task, tasks[i])
    ensures IsTimeIntersected(task, tasks) == None
  {
    if !Compared(task, tasks[0]) {
      var i :| 0 <= i < |tasks| && Compared(task, tasks[i]);
      assert tasks[1..][i - 1] == tasks[i];
      UnscheduledCandidateFails(task, tasks[1..]);
    }
  }

  /** A collection holding nothing but the candidate's equals yields false, with no comparison. */
  lemma {:induction false} OnlyEqualsGiveFalse(task: Item, tasks: seq<Item>)
    requires forall i :: 0 <= i < |tasks| ==> Equal(task, tasks[i])
    ensures IsTimeIntersected(task, tasks) == Some(false)
  {
    if tasks != [] {
      assert forall i :: 0 <= i < |tasks[1..]| ==> tasks[1..][i] == tasks[i + 1];
      OnlyEqualsGiveFalse(task, tasks[1..]);
    }
  }

  /**
   * The two scenarios of the utility's tests, in minutes of the day: 22:15
   * for five minutes meets 22:00 for twenty, while 22:20 for ten only
   * touches it and touches the zero-length 22:30 item.
   */
  lemma TestScenarios()
    ensures var task1 := Task(1, "t1", "", NEW, Some(1320), 20);
            var task2 := Task(2, "t2", "", IN_PROGRESS, Some(1350), 0);
            var sub2 := Subtask(4, "s2", "", IN_PROGRESS, Some(1200), 15, 2);
            var hit := Subtask(3, "s1", "", NEW, Some(1335), 5, 1);
            var miss := Subtask(3, "s1", "", NEW, Some(1340), 10, 1);
            IsTimeIntersected(hit, [task1, task2, hit, sub2]) == Some(true) &&
            IsTimeIntersected(miss, [task1, task2, miss, sub2]) == Some(false)
  {
    var task1 := Task(1, "t1", "", NEW, Some(1320), 20);
    var task2 := Task(2, "t2", "", IN_PROGRESS, Some(1350), 0);
    var sub2 := Subtask(4, "s2", "", IN_PROGRESS, Some(1200), 15, 2);
    var hit := Subtask(3, "s1", "", NEW, Some(1335), 5, 1);
    var miss := Subtask(3, "s1", "", NEW, Some(1340), 10, 1);
    assert IsIntersectedByTime(task1, hit) == Some(true);
    var l := [task1, task2, miss, sub2];
    assert l[1..] == [task2, miss, sub2];
    assert l[1..][1..] == [miss, sub2];
    assert l[1..][1..][1..] == [sub2];
    assert l[1..][1..][1..][1..] == [];
    assert IsIntersectedByTime(sub2, miss) == Some(false);
    assert IsTimeIntersected(miss, [sub2]) == Some(false);
    assert IsTimeIntersected(miss, [miss, sub2]) == Some(false);
    assert IsIntersectedByTime(task2, miss) == Some(false);
    assert IsTimeIntersected(miss, [task2, miss, sub2]) == Some(false);
    assert IsIntersectedByTime(task1, miss) == Some(false);
  }
}
