/** Sequence and map helpers standing in for `java.util.List` and `java.util.Map` operations. */
module Seqs {
  import opened Wrappers

  /** No element occurs twice. */
  ghost predicate Distinct<T>(s: seq<T>)
  {
    forall i, j :: 0 <= i < j < |s| ==> s[i] != s[j]
  }

  /** The position of the first occurrence of `x`. */
  function IndexOf<T(==)>(s: seq<T>, x: T): (k: nat)
    requires x in s
    ensures k < |s| && s[k] == x && x !in s[..k]
  {
    if s[0] == x then 0
    else
      var k := IndexOf(s[1..], x);
      assert s[..k + 1] == [s[0]] + s[1..][..k];
      k + 1
  }

  /** `List.remove(Object)`: drops the first element equal to `x`, if any. */
  function RemoveFirst<T(==)>(s: seq<T>, x: T): (r: seq<T>)
  {
    if s == [] then []
    else if s[0] == x then s[1..]
    else [s[0]] + RemoveFirst(s[1..], x)
  }

  /**
   * Removal leaves the list untouched when `x` is absent, and otherwise cuts
   * out exactly the first occurrence, keeping the others in their order.
   */
  lemma {:induction false} RemoveFirstCutsFirstOccurrence<T>(s: seq<T>, x: T)
    ensures x !in s ==> RemoveFirst(s, x) == s
    ensures x in s ==> RemoveFirst(s, x) == s[..IndexOf(s, x)] + s[IndexOf(s, x) + 1..]
  {
    if s != [] && s[0] != x {
      RemoveFirstCutsFirstOccurrence(s[1..], x);
      if x in s {
        assert x in s[1..];
        assert s[..IndexOf(s, x)] == [s[0]] + s[1..][..IndexOf(s[1..], x)];
        assert s[IndexOf(s, x) + 1..] == s[1..][IndexOf(s[1..], x) + 1..];
      } else {
        assert s == [s[0]] + s[1..];
      }
    }
  }

  /** On a duplicate-free list, removing `x` removes it entirely and keeps the list duplicate-free. */
  lemma RemoveFirstDistinct<T>(s: seq<T>, x: T)
    requires Distinct(s)
    ensures Distinct(RemoveFirst(s, x))
    ensures forall y :: y in RemoveFirst(s, x) <==> y in s && y != x
  {
    RemoveFirstCutsFirstOccurrence(s, x);
    if x in s {
      var k := IndexOf(s, x);
      var r := RemoveFirst(s, x);
      assert |r| == |s| - 1;
      assert forall i :: 0 <= i < k ==> r[i] == s[i];
      assert forall i :: k <= i < |r| ==> r[i] == s[i + 1];
      forall y
        ensures y in r <==> y in s && y != x
      {
        if y in r {
          var i :| 0 <= i < |r| && r[i] == y;
          if i < k { assert y == s[i]; } else { assert y == s[i + 1]; }
        }
        if y in s && y != x {
          var i :| 0 <= i < |s| && s[i] == y;
          if i < k { assert r[i] == y; } else { assert r[i - 1] == y; }
        }
      }
    }
  }

  /** The members of a finite set of ids in ascending order (the order this model gives `HashMap` iteration). */
  function SortedIds(s: set<int>): (r: seq<int>)
    ensures |r| == |s|
    ensures forall x :: x in r <==> x in s
    ensures forall i, j :: 0 <= i < j < |r| ==> r[i] < r[j]
    decreases s
  {
    if s == {} then []
    else
      var m := Least(s);
      var rest := SortedIds(s - {m});
      assert |s - {m}| == |s| - 1;
      assert forall i :: 0 <= i < |rest| ==> m < rest[i] by {
        forall i | 0 <= i < |rest| ensures m < rest[i] {
          assert rest[i] in s - {m};
        }
      }
      [m] + rest
  }

  /** The least element of a non-empty finite set of integers. */
  function Least(s: set<int>): (m: int)
    requires s != {}
    ensures m in s && forall y :: y in s ==> m <= y
  {
    MinimumExists(s);
    var m :| m in s && forall y :: y in s ==> m <= y;
    m
  }

  /** Every non-empty finite set of integers has a least element. */
  lemma MinimumExists(s: set<int>)
    requires s != {}
    ensures exists m :: m in s && forall y :: y in s ==> m <= y
    decreases s
  {
    if forall y :: y !in s { assert false; }
    var x :| x in s;
    var rest := s - {x};
    if rest == {} {
      assert s == rest + {x};
    } else {
      MinimumExists(rest);
      var m :| m in rest && forall y :: y in rest ==> m <= y;
      var least := if x < m then x else m;
      forall y | y in s ensures least <= y { if y != x { assert y in rest; } }
      assert least in s;
    }
  }

  /** The map's values in iteration order (`new ArrayList<>(map.values())`). */
  function Values<V>(m: map<int, V>): (r: seq<V>)
    ensures |r| == |SortedIds(m.Keys)|
    ensures forall i :: 0 <= i < |r| ==> SortedIds(m.Keys)[i] in m && r[i] == m[SortedIds(m.Keys)[i]]
  {
    KeysListed(m);
    var ids := SortedIds(m.Keys);
    seq(|ids|, i requires 0 <= i < |ids| => m[ids[i]])
  }

  /** The listed keys are keys of the map. */
  lemma KeysListed<V>(m: map<int, V>)
    ensures forall i :: 0 <= i < |SortedIds(m.Keys)| ==> SortedIds(m.Keys)[i] in m
  {
    var ids := SortedIds(m.Keys);
    forall i | 0 <= i < |ids| ensures ids[i] in m {
      assert ids[i] in ids;
    }
  }

  /** Every value is listed, and nothing else. */
  lemma ValuesSpec<V>(m: map<int, V>)
    ensures forall k :: k in m ==> m[k] in Values(m)
    ensures forall x :: x in Values(m) ==> exists k :: k in m && m[k] == x
  {
    var ids := SortedIds(m.Keys);
    forall k | k in m ensures m[k] in Values(m) {
      var i :| 0 <= i < |ids| && ids[i] == k;
      assert Values(m)[i] == m[k];
    }
  }

  /** `HashMap.get`: the value under the key, or `null`. */
  function Find<V>(m: map<int, V>, k: int): (r: Option<V>)
    ensures r.Some? <==> k in m
    ensures r.Some? ==> r.value == m[k]
  {
    if k in m then Some(m[k]) else None
  }

  /** The map after `remove` of each listed key in turn. */
  function RemoveKeys<V>(m: map<int, V>, ids: seq<int>): (r: map<int, V>)
  {
    if ids == [] then m else RemoveKeys(m, ids[..|ids| - 1]) - {ids[|ids| - 1]}
  }

  /** That removes exactly the listed keys and keeps every other entry. */
  lemma {:induction false} RemoveKeysSpec<V>(m: map<int, V>, ids: seq<int>)
    ensures forall k :: k in RemoveKeys(m, ids) <==> k in m && k !in ids
    ensures forall k :: k in RemoveKeys(m, ids) ==> RemoveKeys(m, ids)[k] == m[k]
  {
    if ids != [] {
      RemoveKeysSpec(m, ids[..|ids| - 1]);
      assert ids == ids[..|ids| - 1] + [ids[|ids| - 1]];
    }
  }
}
