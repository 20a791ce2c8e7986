/**
 * The priority index of `managers/InMemoryTaskManager`: a `TreeSet` whose
 * comparator looks only at `startTime`, read in its iteration order. The
 * `TreeSet` operations the manager calls (`add`, `remove`, `removeIf`,
 * `removeAll` and the in-place field update of `updateOrRemovePrioritizedTask`)
 * are functions on that sequence.
 */
module PriorityIndex {
  import opened Wrappers
  import opened Failures
  import opened Tasks

  /** Every entry has a start time, which the comparator dereferences. */
  ghost predicate Timed(s: seq<Item>)
  {
    forall i :: 0 <= i < |s| ==> s[i].startTime.Some?
  }

  /** Every entry is a task or a subtask with a start time; no epic ever enters. */
  ghost predicate Entries(s: seq<Item>)
  {
    forall i :: 0 <= i < |s| ==> s[i].startTime.Some? && !s[i].Epic?
  }

  /** The iteration order of a consistent tree: strictly ascending start times. */
  ghost predicate Ascending(s: seq<Item>)
    requires Timed(s)
  {
    forall i, j :: 0 <= i < j < |s| ==> s[i].startTime.value < s[j].startTime.value
  }

  /** Some entry starts at `m`: the comparator treats it as equal to any item starting at `m`. */
  ghost predicate HasStart(s: seq<Item>, m: int)
  {
    exists i :: 0 <= i < |s| && s[i].startTime == Some(m)
  }

  /**
   * `add`: the tree is searched by start time; an entry with the same start
   * makes the call a no-op, otherwise the item goes in before the first
   * later start.
   */
  function Add(s: seq<Item>, t: Item): (r: seq<Item>)
    requires Timed(s) && t.startTime.Some?
  {
    if s == [] then [t]
    else if s[0].startTime == t.startTime then s
    else if t.startTime.value < s[0].startTime.value then [t] + s
    else [s[0]] + Add(s[1..], t)
  }

  /** Every entry of the result is an entry of the index or the item. */
  lemma {:induction false} AddMembers(s: seq<Item>, t: Item)
    requires Timed(s) && t.startTime.Some?
    ensures forall x :: x in Add(s, t) ==> x in s || x == t
    ensures Timed(Add(s, t))
  {
    if s != [] && s[0].startTime != t.startTime && t.startTime.value >= s[0].startTime.value {
      var rest := s[1..];
      AddMembers(rest, t);
      assert forall x :: x in rest ==> x in s;
    }
  }

  /** Adding to an ordered index keeps it ordered. */
  lemma {:induction false} AddAscending(s: seq<Item>, t: Item)
    requires Timed(s) && Ascending(s) && t.startTime.Some?
    ensures Timed(Add(s, t)) && Ascending(Add(s, t))
  {
    AddMembers(s, t);
    if s != [] && s[0].startTime != t.startTime {
      if t.startTime.value >= s[0].startTime.value {
        var rest := s[1..];
        AddAscending(rest, t);
        AddMembers(rest, t);
        var ar := Add(rest, t);
        var r := Add(s, t);
        forall j | 0 <= j < |ar| ensures s[0].startTime.value < ar[j].startTime.value {
          assert ar[j] in ar;
          if ar[j] != t {
            var k :| 0 <= k < |rest| && rest[k] == ar[j];
            assert rest[k] == s[k + 1];
          }
        }
        forall i, j | 0 <= i < j < |r| ensures r[i].startTime.value < r[j].startTime.value {
          assert r[j] == ar[j - 1];
          if i > 0 { assert r[i] == ar[i - 1]; }
        }
      } else {
        var r := Add(s, t);
        forall i, j | 0 <= i < j < |r| ensures r[i].startTime.value < r[j].startTime.value {
          assert r[j] == s[j - 1];
          if i > 0 { assert r[i] == s[i - 1]; } else { assert s[0].startTime.value <= s[j - 1].startTime.value; }
        }
      }
    }
  }

  /** The tail of an ordered index is ordered and starts after the head. */
  lemma TailAscending(s: seq<Item>)
    requires Timed(s) && Ascending(s) && s != []
    ensures Timed(s[1..]) && Ascending(s[1..])
    ensures forall x :: x in s[1..] ==> s[0].startTime.value < x.startTime.value
  {
    forall x | x in s[1..] ensures s[0].startTime.value < x.startTime.value {
      var k :| 0 <= k < |s[1..]| && s[1..][k] == x;
      assert s[k + 1] == x;
    }
  }

  /** On an ordered index, an entry with the item's start makes `add` a no-op. */
  lemma {:induction false} AddExisting(s: seq<Item>, t: Item)
    requires Timed(s) && Ascending(s) && t.startTime.Some? && HasStart(s, t.startTime.value)
    ensures Add(s, t) == s
  {
    var k :| 0 <= k < |s| && s[k].startTime == t.startTime;
    if s[0].startTime != t.startTime {
      assert s[0].startTime.value < s[k].startTime.value;
      TailAscending(s);
      assert s[1..][k - 1] == s[k];
      AddExisting(s[1..], t);
    }
  }

  /** When no entry has the item's start, `add` inserts exactly the item. */
  lemma {:induction false} AddNew(s: seq<Item>, t: Item)
    requires Timed(s) && t.startTime.Some? && !HasStart(s, t.startTime.value)
    ensures |Add(s, t)| == |s| + 1
    ensures forall x :: x in Add(s, t) <==> x in s || x == t
  {
    if s != [] {
      assert s[0].startTime != t.startTime;
      if t.startTime.value >= s[0].startTime.value {
        var rest := s[1..];
        assert !HasStart(rest, t.startTime.value) by {
          forall k | 0 <= k < |rest| ensures rest[k].startTime != t.startTime {
            assert rest[k] == s[k + 1];
          }
        }
        AddNew(rest, t);
        assert forall x :: x in s <==> x == s[0] || x in rest;
      }
    }
  }

  /**
   * On an ordered index, an entry with the item's start makes `add` a no-op;
   * otherwise the index gains exactly the item.
   */
  lemma AddSpec(s: seq<Item>, t: Item)
    requires Timed(s) && Ascending(s) && t.startTime.Some?
    ensures HasStart(s, t.startTime.value) ==> Add(s, t) == s
    ensures !HasStart(s, t.startTime.value) ==>
      |Add(s, t)| == |s| + 1 && forall x :: x in Add(s, t) <==> x in s || x == t
  {
    if HasStart(s, t.startTime.value) {
      AddExisting(s, t);
    } else {
      AddNew(s, t);
    }
  }

  /** The entries that pass a test, in their order (`removeIf` with the negated test). */
  function Filter(s: seq<Item>, keep: Item -> bool): (r: seq<Item>)
  {
    if s == [] then [] else (if keep(s[0]) then [s[0]] else []) + Filter(s[1..], keep)
  }

  /** Filtering keeps exactly the entries that pass, and keeps a list whose entries all pass. */
  lemma {:induction false} FilterMembers(s: seq<Item>, keep: Item -> bool)
    ensures |Filter(s, keep)| <= |s|
    ensures forall x :: x in Filter(s, keep) <==> x in s && keep(x)
    ensures (forall i :: 0 <= i < |s| ==> keep(s[i])) ==> Filter(s, keep) == s
  {
    if s != [] {
      var rest := s[1..];
      FilterMembers(rest, keep);
      assert forall x :: x in s <==> x == s[0] || x in rest;
      if forall i :: 0 <= i < |s| ==> keep(s[i]) {
        assert forall i :: 0 <= i < |rest| ==> keep(rest[i]) by {
          forall i | 0 <= i < |rest| ensures keep(rest[i]) { assert rest[i] == s[i + 1]; }
        }
        assert s == [s[0]] + rest;
      }
    }
  }

  /**
   * Filtering keeps timed and well-formed indexes so, and never reorders, so
   * an ordered index stays ordered.
   */
  lemma FilterOrdered(s: seq<Item>, keep: Item -> bool)
    ensures Timed(s) ==> Timed(Filter(s, keep))
    ensures Entries(s) ==> Entries(Filter(s, keep))
    ensures Timed(s) && Ascending(s) ==> Ascending(Filter(s, keep))
  {
    FilterMembers(s, keep);
    var r := Filter(s, keep);
    assert forall i :: 0 <= i < |r| ==> r[i] in s;
    if Timed(s) && Ascending(s) {
      FilterAscending(s, keep);
    }
  }

  /** An entry before an ordered index whose starts all come later gives an ordered index. */
  lemma ConsAscending(x: Item, s: seq<Item>)
    requires x.startTime.Some? && Timed(s) && Ascending(s)
    requires forall j :: 0 <= j < |s| ==> x.startTime.value < s[j].startTime.value
    ensures Timed([x] + s) && Ascending([x] + s)
  {
    var r := [x] + s;
    forall i, j | 0 <= i < j < |r| ensures r[i].startTime.value < r[j].startTime.value {
      assert r[j] == s[j - 1];
      if i > 0 { assert r[i] == s[i - 1]; }
    }
  }

  lemma {:induction false} FilterAscending(s: seq<Item>, keep: Item -> bool)
    requires Timed(s) && Ascending(s)
    ensures Timed(Filter(s, keep)) && Ascending(Filter(s, keep))
  {
    if s != [] {
      var rest := s[1..];
      TailAscending(s);
      FilterAscending(rest, keep);
      var fr := Filter(rest, keep);
      if keep(s[0]) {
        FilterMembers(rest, keep);
        forall j | 0 <= j < |fr| ensures s[0].startTime.value < fr[j].startTime.value {
          assert fr[j] in fr;
        }
        ConsAscending(s[0], fr);
      }
    }
  }

  /** Filtering keeps exactly the entries that pass, in order. */
  lemma FilterSpec(s: seq<Item>, keep: Item -> bool)
    ensures |Filter(s, keep)| <= |s|
    ensures forall x :: x in Filter(s, keep) <==> x in s && keep(x)
    ensures Timed(s) ==> Timed(Filter(s, keep))
    ensures Entries(s) ==> Entries(Filter(s, keep))
    ensures Timed(s) && Ascending(s) ==> Ascending(Filter(s, keep))
  {
    FilterMembers(s, keep);
    FilterOrdered(s, keep);
  }

  /** The test that keeps the entries with another id. */
  function OtherId(id: int): (keep: Item -> bool)
    ensures forall x :: keep(x) <==> x.id != id
  {
    (x: Item) => x.id != id
  }

  /** The test that keeps the entries the comparator does not match with start `st`. */
  function OtherStart(st: Option<int>): (keep: Item -> bool)
    ensures forall x :: keep(x) <==> x.startTime != st
  {
    (x: Item) => x.startTime != st
  }

  /** `removeIf(t -> t.getId() == id)`: every entry with the id goes, whatever its class. */
  function RemoveId(s: seq<Item>, id: int): (r: seq<Item>)
  {
    Filter(s, OtherId(id))
  }

  /** Removing by id leaves no entry with that id and keeps every other entry in order. */
  lemma RemoveIdSpec(s: seq<Item>, id: int)
    ensures forall x :: x in RemoveId(s, id) <==> x in s && x.id != id
    ensures Entries(s) ==> Entries(RemoveId(s, id))
    ensures Timed(s) && Ascending(s) ==> Timed(RemoveId(s, id)) && Ascending(RemoveId(s, id))
  {
    FilterSpec(s, OtherId(id));
  }

  /**
   * `remove(o)`: the comparator lookup. An empty tree is never searched; in a
   * non-empty one an item without a start time throws (`null.compareTo`);
   * otherwise the entry with the same start, if any, goes.
   */
  function Remove(s: seq<Item>, t: Item): (r: Result<seq<Item>, Failure>)
  {
    if s == [] then Ok(s)
    else if t.startTime.None? then Err(NullPointer)
    else Ok(Filter(s, OtherStart(t.startTime)))
  }

  /**
   * Removal fails exactly for an unscheduled item on a non-empty index; when
   * it succeeds no entry shares the item's start, everything else stays, and
   * order is kept.
   */
  lemma RemoveSpec(s: seq<Item>, t: Item)
    ensures Remove(s, t).Err? <==> s != [] && t.startTime.None?
    ensures Remove(s, t).Ok? ==> forall x :: x in Remove(s, t).value <==> x in s && (x.startTime != t.startTime || s == [])
    ensures Remove(s, t).Ok? && Entries(s) ==> Entries(Remove(s, t).value)
    ensures Remove(s, t).Ok? && Timed(s) && Ascending(s) ==> Timed(Remove(s, t).value) && Ascending(Remove(s, t).value)
  {
    FilterSpec(s, OtherStart(t.startTime));
  }

  /** `c.contains(x)` for a collection of map values: some element `equals` it. */
  predicate ContainsEqual(c: seq<Item>, x: Item)
  {
    exists k :: 0 <= k < |c| && Equal(c[k], x)
  }

  /** The test that keeps the entries `c` does not contain. */
  function Absent(c: seq<Item>): (keep: Item -> bool)
    ensures forall x :: keep(x) <==> !ContainsEqual(c, x)
  {
    (x: Item) => !ContainsEqual(c, x)
  }

  /** The first branch of `AbstractSet.removeAll`: `remove` of each element of `c` in turn. */
  function RemoveEach(s: seq<Item>, c: seq<Item>): (r: (seq<Item>, Outcome))
    decreases |c|
  {
    if c == [] then (s, Pass)
    else match Remove(s, c[0])
      case Err(f) => (s, Fail(f))
      case Ok(s') => RemoveEach(s', c[1..])
  }

  /**
   * `removeAll(c)` as `AbstractSet` runs it: when the set is larger than `c`
   * each element of `c` is removed by the comparator (a failure ends the loop
   * with the removals so far), otherwise the set's iterator drops every entry
   * `c` contains by `equals`.
   */
  function RemoveAll(s: seq<Item>, c: seq<Item>): (r: (seq<Item>, Outcome))
  {
    if |s| > |c| then RemoveEach(s, c)
    else (Filter(s, Absent(c)), Pass)
  }

  /**
   * Each removal keeps the index well-formed and ordered, even when one fails
   * midway; when every element has a start, exactly the entries sharing a
   * start with one of them go.
   */
  lemma {:induction false} RemoveEachSpec(s: seq<Item>, c: seq<Item>)
    ensures |RemoveEach(s, c).0| <= |s|
    ensures forall x :: x in RemoveEach(s, c).0 ==> x in s
    ensures Entries(s) ==> Entries(RemoveEach(s, c).0)
    ensures Timed(s) && Ascending(s) ==> Timed(RemoveEach(s, c).0) && Ascending(RemoveEach(s, c).0)
    ensures (forall k :: 0 <= k < |c| ==> c[k].startTime.Some?) ==> RemoveEach(s, c).1 == Pass
    ensures (forall k :: 0 <= k < |c| ==> c[k].startTime.Some?) ==>
      forall x :: x in RemoveEach(s, c).0 <==> x in s && forall k :: 0 <= k < |c| ==> c[k].startTime != x.startTime
    decreases |c|
  {
    RemoveEachDrops(s, c);
    if c != [] {
      RemoveSpec(s, c[0]);
      FilterSpec(s, OtherStart(c[0].startTime));
      if Remove(s, c[0]).Ok? {
        RemoveEachSpec(Remove(s, c[0]).value, c[1..]);
        if forall k :: 0 <= k < |c| ==> c[k].startTime.Some? {
          assert forall k :: 0 <= k < |c[1..]| ==> c[1..][k].startTime.Some? by {
            forall k | 0 <= k < |c[1..]| ensures c[1..][k].startTime.Some? { assert c[1..][k] == c[k + 1]; }
          }
        }
      }
    }
  }

  /** With every start present, the comparator removals drop exactly the entries sharing a start with `c`. */
  lemma {:induction false} RemoveEachDrops(s: seq<Item>, c: seq<Item>)
    ensures (forall k :: 0 <= k < |c| ==> c[k].startTime.Some?) ==>
      forall x :: x in RemoveEach(s, c).0 <==> x in s && forall k :: 0 <= k < |c| ==> c[k].startTime != x.startTime
    decreases |c|
  {
    if c != [] && forall k :: 0 <= k < |c| ==> c[k].startTime.Some? {
      RemoveSpec(s, c[0]);
      var s' := Remove(s, c[0]).value;
      assert forall k :: 0 <= k < |c[1..]| ==> c[1..][k] == c[k + 1];
      RemoveEachDrops(s', c[1..]);
      forall x
        ensures x in RemoveEach(s, c).0 <==> x in s && forall k :: 0 <= k < |c| ==> c[k].startTime != x.startTime
      {
        if x in s && forall k :: 0 <= k < |c[1..]| ==> c[1..][k].startTime != x.startTime {
          assert forall k :: 0 < k < |c| ==> c[k].startTime != x.startTime;
        }
      }
    }
  }

  /**
   * `removeAll` never adds, keeps the index well-formed and ordered, and can
   * fail only on the comparator path with an element of `c` that has no start.
   * The iterator path drops the entries `c` contains; the comparator path,
   * with every start present, drops the entries sharing a start with `c`.
   */
  lemma RemoveAllSpec(s: seq<Item>, c: seq<Item>)
    ensures forall x :: x in RemoveAll(s, c).0 ==> x in s
    ensures Entries(s) ==> Entries(RemoveAll(s, c).0)
    ensures Timed(s) && Ascending(s) ==> Timed(RemoveAll(s, c).0) && Ascending(RemoveAll(s, c).0)
    ensures RemoveAll(s, c).1.Fail? ==> |s| > |c| && exists k :: 0 <= k < |c| && c[k].startTime.None?
    ensures |s| <= |c| ==> forall x :: x in RemoveAll(s, c).0 <==> x in s && !ContainsEqual(c, x)
    ensures |s| > |c| && (forall k :: 0 <= k < |c| ==> c[k].startTime.Some?) ==>
      forall x :: x in RemoveAll(s, c).0 <==> x in s && forall k :: 0 <= k < |c| ==> c[k].startTime != x.startTime
  {
    if |s| > |c| {
      RemoveEachSpec(s, c);
    } else {
      FilterSpec(s, Absent(c));
    }
  }

  /** The fields `updateOrRemovePrioritizedTask` copies onto an entry equal to `task`. */
  function Refreshed(x: Item, task: Item): (r: Item)
    ensures KindOf(r) == KindOf(x) && r.id == x.id
    ensures r.name == task.name && r.description == task.description
    ensures r.startTime == task.startTime && r.duration == task.duration
    ensures r.status == if x.Epic? then x.status else task.status
  {
    WithFields(x, task.name, task.description, if x.Epic? then x.status else task.status, task.startTime, task.duration)
  }

  /** The stream over the set that sets the fields of every entry `equals` to `task`, in place. */
  function Refresh(s: seq<Item>, task: Item): (r: seq<Item>)
    ensures |r| == |s|
  {
    seq(|s|, i requires 0 <= i < |s| => if Equal(s[i], task) then Refreshed(s[i], task) else s[i])
  }

  /**
   * `updateOrRemovePrioritizedTask`: an item without a start time is removed
   * by the comparator; otherwise the entries equal to it take its fields
   * where they stand. An item that is not in the set is never added.
   */
  function UpdateOrRemove(s: seq<Item>, task: Item): (r: Result<seq<Item>, Failure>)
  {
    if task.startTime.None? then Remove(s, task) else Ok(Refresh(s, task))
  }

  /**
   * The update keeps every entry a timed task or subtask and keeps each
   * entry's id and class, so it can only change entries equal to the item
   * and it never inserts one.
   */
  lemma UpdateOrRemoveSpec(s: seq<Item>, task: Item)
    ensures UpdateOrRemove(s, task).Err? <==> s != [] && task.startTime.None?
    ensures UpdateOrRemove(s, task).Ok? && Entries(s) ==> Entries(UpdateOrRemove(s, task).value)
    ensures task.startTime.Some? ==> forall i :: 0 <= i < |s| ==>
      Equal(UpdateOrRemove(s, task).value[i], s[i]) &&
      (Equal(s[i], task) ==> UpdateOrRemove(s, task).value[i] == Refreshed(s[i], task)) &&
      (!Equal(s[i], task) ==> UpdateOrRemove(s, task).value[i] == s[i])
  {
    RemoveSpec(s, task);
  }

  /**
   * Changing the sort key in place breaks the order: moving the earlier of
   * two entries past the later one leaves the index out of order, and moving
   * it onto the later one's start leaves two entries with one start.
   */
  lemma UpdateBreaksOrder()
    ensures var a := Task(1, "a", "", TaskStatuses.NEW, Some(0), 10);
      var b := Task(2, "b", "", TaskStatuses.NEW, Some(100), 10);
      var later := Task(1, "a", "", TaskStatuses.NEW, Some(200), 10);
      var same := Task(1, "a", "", TaskStatuses.NEW, Some(100), 10);
      Timed([a, b]) && Ascending([a, b]) &&
      UpdateOrRemove([a, b], later) == Ok([later, b]) &&
      UpdateOrRemove([a, b], same) == Ok([same, b])
  {
    var a := Task(1, "a", "", TaskStatuses.NEW, Some(0), 10);
    var b := Task(2, "b", "", TaskStatuses.NEW, Some(100), 10);
    var later := Task(1, "a", "", TaskStatuses.NEW, Some(200), 10);
    var same := Task(1, "a", "", TaskStatuses.NEW, Some(100), 10);
    assert Refresh([a, b], later) == [later, b];
    assert Refresh([a, b], same) == [same, b];
  }

  /**
   * The ordering test: two tasks at 22:00 and 21:10 and two subtasks at 22:10
   * and 21:00 (minutes of the day), added in that order, iterate as 21:00,
   * 21:10, 22:00, 22:10.
   */
  lemma AddOrdersByStart(task1: Item, task2: Item, sub1: Item, sub2: Item)
    requires task1.startTime == Some(1320) && task2.startTime == Some(1270)
    requires sub1.startTime == Some(1330) && sub2.startTime == Some(1260)
    ensures Add(Add([], task1), task2) == [task2, task1]
    ensures Add([task2, task1], sub1) == [task2, task1, sub1]
    ensures Add([task2, task1, sub1], sub2) == [sub2, task2, task1, sub1]
  {
    assert Add([], task1) == [task1];
    assert Add([task1], task2) == [task2, task1];
    assert [task2, task1][1..] == [task1] && [task1][1..] == [];
    assert Add([task1], sub1) == [task1] + Add([], sub1);
    assert Add([task2, task1], sub1) == [task2] + Add([task1], sub1);
    assert Add([task2, task1], sub1) == [task2, task1, sub1];
  }
}
