/**
 * The task status enumeration and the rule an epic uses to derive its status
 * from its subtasks. All three epic classes of the repository run the same
 * loop (`getStatusBySubtasks`), so the rule is defined once here.
 */
module TaskStatuses {
  import opened Wrappers

  datatype Status = NEW | IN_PROGRESS | DONE

  /**
   * The loop of `getStatusBySubtasks` from some position on. An element is the
   * status of one subtask, or `None` when the list holds `null` there; the
   * loop dereferences it, so the result is then `None` (a NullPointerException).
   */
  function Scan(subs: seq<Option<Status>>, allDone: bool): (r: Option<Status>)
  {
    if subs == [] then Some(if allDone then DONE else NEW)
    else match subs[0]
      case None => None
      case Some(IN_PROGRESS) => Some(IN_PROGRESS)
      case Some(NEW) => Scan(subs[1..], false)
      case Some(DONE) => Scan(subs[1..], allDone)
  }

  /** `getStatusBySubtasks` as a value: NEW for no subtasks, otherwise the scan. */
  function StatusBySubtasks(subs: seq<Option<Status>>): (r: Option<Status>)
  {
    if subs == [] then Some(NEW) else Scan(subs, true)
  }

  /** The statuses of a list without null elements. */
  function Lift(sts: seq<Status>): (r: seq<Option<Status>>)
    ensures |r| == |sts|
    ensures forall i :: 0 <= i < |sts| ==> r[i] == Some(sts[i])
  {
    if sts == [] then [] else [Some(sts[0])] + Lift(sts[1..])
  }

  /** The documented rule, stated without a loop. */
  function Rule(sts: seq<Status>): (r: Status)
  {
    if sts == [] then NEW
    else if IN_PROGRESS in sts then IN_PROGRESS
    else if forall s :: s in sts ==> s == DONE then DONE
    else NEW
  }

  lemma {:induction false} ScanOfStatuses(sts: seq<Status>, allDone: bool)
    ensures Scan(Lift(sts), allDone) ==
      Some(if IN_PROGRESS in sts then IN_PROGRESS
           else if allDone && forall s :: s in sts ==> s == DONE then DONE
           else NEW)
  {
    if sts != [] {
      var rest := sts[1..];
      assert Lift(sts)[1..] == Lift(rest);
      assert sts == [sts[0]] + rest;
      match sts[0]
      case IN_PROGRESS =>
      case NEW =>
        ScanOfStatuses(rest, false);
        assert sts[0] in sts;
      case DONE =>
        ScanOfStatuses(rest, allDone);
        assert forall s :: s in sts <==> s == DONE || s in rest;
    }
  }

  /**
   * Over subtasks that all exist the loop computes the rule: none gives NEW,
   * any IN_PROGRESS gives IN_PROGRESS, all DONE gives DONE, and any other mix
   * (NEW with DONE included) gives NEW.
   */
  lemma StatusMatchesRule(sts: seq<Status>)
    ensures StatusBySubtasks(Lift(sts)) == Some(Rule(sts))
  {
    ScanOfStatuses(sts, true);
  }

  /** A list mixing NEW and DONE, with no IN_PROGRESS, yields NEW. */
  lemma NewAndDoneGiveNew(sts: seq<Status>)
    requires NEW in sts && DONE in sts && IN_PROGRESS !in sts
    ensures StatusBySubtasks(Lift(sts)) == Some(NEW)
  {
    StatusMatchesRule(sts);
  }

  /**
   * The loop fails exactly when it reaches a null element, that is when a null
   * comes before the first IN_PROGRESS.
   */
  lemma {:induction false} ScanFailsAtNull(subs: seq<Option<Status>>, allDone: bool)
    ensures Scan(subs, allDone) == None <==>
      exists k :: 0 <= k < |subs| && subs[k] == None && Some(IN_PROGRESS) !in subs[..k]
  {
    if subs != [] {
      ScanFailsAtNull(subs[1..], if subs[0] == Some(NEW) then false else allDone);
      if subs[0] == None {
        assert subs[..0] == [];
      } else if subs[0] == Some(IN_PROGRESS) {
        forall k | 0 <= k < |subs| && subs[k] == None
          ensures Some(IN_PROGRESS) in subs[..k]
        {
          assert subs[..k][0] == subs[0];
        }
      } else {
        if Scan(subs, allDone) == None {
          var k :| 0 <= k < |subs[1..]| && subs[1..][k] == None && Some(IN_PROGRESS) !in subs[1..][..k];
          assert subs[..k + 1] == [subs[0]] + subs[1..][..k];
        } else {
          forall k | 0 <= k < |subs| && subs[k] == None
            ensures Some(IN_PROGRESS) in subs[..k]
          {
            assert subs[1..][k - 1] == None;
            assert subs[..k] == [subs[0]] + subs[1..][..k - 1];
          }
        }
      }
    }
  }

  /** The Java loop itself: a `for` over the list with an early return. */
  method GetStatusBySubtasks(subtasks: seq<Option<Status>>) returns (r: Option<Status>)
    ensures r == StatusBySubtasks(subtasks)
    ensures r == None <==> exists k :: 0 <= k < |subtasks| && subtasks[k] == None && Some(IN_PROGRESS) !in subtasks[..k]
  {
    ScanFailsAtNull(subtasks, true);
    if |subtasks| == 0 {
      return Some(NEW);
    }
    var isAllDone := true;
    for i := 0 to |subtasks|
      invariant Scan(subtasks[i..], isAllDone) == Scan(subtasks, true)
    {
      assert subtasks[i..][1..] == subtasks[i + 1..];
      match subtasks[i]
      case None =>
        return None;
      case Some(IN_PROGRESS) =>
        return Some(IN_PROGRESS);
      case Some(NEW) =>
        isAllDone := false;
      case Some(DONE) =>
    }
    r := Some(if isAllDone then DONE else NEW);
  }
}
