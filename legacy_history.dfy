/**
 * The history tracker of package `ru.yandex.practicum.task`
 * (`task/InMemoryHistoryManager`): a list of at most ten entries that drops
 * its oldest entry when full and never removes duplicates.
 */
module LegacyHistoryManagers {

  /** `HISTORY_CAPACITY`. */
  const Capacity: nat := 10

  /** `add` on the list: evict the oldest entry when full, then append. */
  function Push<T>(h: seq<T>, t: T): (r: seq<T>)
    ensures |h| <= Capacity ==> |r| <= Capacity
    ensures |r| > 0 && r[|r| - 1] == t
    ensures |h| < Capacity ==> |r| == |h| + 1 && r[..|h|] == h
    ensures |h| == Capacity ==> |r| == Capacity && r[..|r| - 1] == h[1..]
  {
    var kept := if |h| == Capacity then h[1..] else h;
    assert (kept + [t])[..|kept|] == kept;
    kept + [t]
  }

  /** A run of `add` calls, oldest first. */
  function PushAll<T>(h: seq<T>, ts: seq<T>): (r: seq<T>)
  {
    if ts == [] then h else Push(PushAll(h, ts[..|ts| - 1]), ts[|ts| - 1])
  }

  /** The last `n` elements of a list (all of them when it is shorter). */
  function Newest<T>(s: seq<T>, n: nat): (r: seq<T>)
    ensures |r| == if |s| < n then |s| else n
  {
    if |s| <= n then s else s[|s| - n..]
  }

  /**
   * After any run of `add` calls on a history that fits, the history holds
   * the ten newest of all entries ever added, oldest first, repeats included.
   */
  lemma {:induction false} PushAllKeepsNewest<T>(h: seq<T>, ts: seq<T>)
    requires |h| <= Capacity
    ensures PushAll(h, ts) == Newest(h + ts, Capacity)
  {
    if ts == [] {
      assert h + ts == h;
    } else {
      var init := ts[..|ts| - 1];
      var t := ts[|ts| - 1];
      PushAllKeepsNewest(h, init);
      var before := PushAll(h, init);
      var all := h + init;
      assert h + ts == all + [t];
      if |all| < Capacity {
        assert before == all;
      } else {
        assert |before| == Capacity;
        assert Newest(all + [t], Capacity) == before[1..] + [t];
      }
    }
  }

  /** The same entry added twice is held twice. */
  lemma AddingTwiceKeepsBoth<T>(h: seq<T>, t: T)
    requires |h| + 2 <= Capacity
    ensures Push(Push(h, t), t) == h + [t, t]
  {
    assert Push(h, t) == h + [t];
  }

  class InMemoryHistoryManager<T> {
    /** `historyTaskList`. */
    var entries: seq<T>

    ghost predicate Valid()
      reads this
    {
      |entries| <= Capacity
    }

    constructor()
      ensures Valid() && entries == []
    {
      entries := [];
    }

    method Add(t: T)
      requires Valid()
      modifies this
      ensures Valid()
      ensures entries == Push(old(entries), t)
    {
      if |entries| == Capacity {
        entries := entries[1..];
      }
      entries := entries + [t];
    }

    /** `getHistory`: the list itself, oldest first. */
    method GetHistory() returns (r: seq<T>)
      requires Valid()
      ensures r == entries && |r| <= Capacity
    {
      r := entries;
    }
  }
}
