/**
 * The view history (`managers/InMemoryHistoryManager`): a doubly linked list
 * of nodes in viewing order plus a map from task id to the node holding it.
 * The ghost fields `nodes` and `history` are the list read from `first` to
 * `last` and the tasks in those nodes.
 */
module HistoryManagers {
  import opened Wrappers
  import opened Tasks

  /** No two entries share an id. */
  ghost predicate UniqueIds(h: seq<Item>)
  {
    forall i, j :: 0 <= i < j < |h| ==> h[i].id != h[j].id
  }

  /** Some entry has the id. */
  ghost predicate HasId(h: seq<Item>, id: int)
  {
    exists i :: 0 <= i < |h| && h[i].id == id
  }

  /** The history without the entries for `id`, the others in their order. */
  function Without(h: seq<Item>, id: int): (r: seq<Item>)
  {
    if h == [] then []
    else if h[0].id == id then Without(h[1..], id)
    else [h[0]] + Without(h[1..], id)
  }

  /** `add`: drop the entry with the task's id, then append the task. */
  function Record(h: seq<Item>, t: Item): (r: seq<Item>)
  {
    Without(h, t.id) + [t]
  }

  /** Removing an id that is absent changes nothing. */
  lemma {:induction false} WithoutAbsent(h: seq<Item>, id: int)
    requires !HasId(h, id)
    ensures Without(h, id) == h
  {
    if h != [] {
      assert !HasId(h[1..], id) by {
        forall i | 0 <= i < |h[1..]| ensures h[1..][i].id != id {
          assert h[1..][i] == h[i + 1];
        }
      }
      WithoutAbsent(h[1..], id);
      assert h == [h[0]] + h[1..];
    }
  }

  /** No entry with the id is left. */
  lemma {:induction false} WithoutLacks(h: seq<Item>, id: int)
    ensures !HasId(Without(h, id), id)
  {
    if h != [] {
      WithoutLacks(h[1..], id);
      var r := Without(h[1..], id);
      if h[0].id != id {
        assert forall i :: 1 <= i < |r| + 1 ==> ([h[0]] + r)[i] == r[i - 1];
      }
    }
  }

  /** The tail of a history with unique ids has unique ids and lacks the head's id. */
  lemma UniqueTail(h: seq<Item>)
    requires UniqueIds(h) && h != []
    ensures UniqueIds(h[1..]) && !HasId(h[1..], h[0].id)
  {
    assert forall i :: 0 <= i < |h| - 1 ==> h[1..][i] == h[i + 1];
  }

  /** With unique ids, removing the id of entry `k` cuts out exactly that entry. */
  lemma {:induction false} WithoutAt(h: seq<Item>, k: nat)
    requires UniqueIds(h) && k < |h|
    ensures Without(h, h[k].id) == h[..k] + h[k + 1..]
  {
    UniqueTail(h);
    if k == 0 {
      WithoutAbsent(h[1..], h[0].id);
    } else {
      assert h[1..][k - 1] == h[k];
      WithoutAt(h[1..], k - 1);
      assert h[..k] == [h[0]] + h[1..][..k - 1];
      assert h[k + 1..] == h[1..][k..];
    }
  }

  /** Cutting an entry out of a list of distinct elements leaves them distinct. */
  lemma CutDistinct<T>(s: seq<T>, k: nat)
    requires k < |s| && forall i, j :: 0 <= i < j < |s| ==> s[i] != s[j]
    ensures var c := s[..k] + s[k + 1..]; forall i, j :: 0 <= i < j < |c| ==> c[i] != c[j]
  {
    var c := s[..k] + s[k + 1..];
    forall i, j | 0 <= i < j < |c| ensures c[i] != c[j] {
      var i0 := if i < k then i else i + 1;
      var j0 := if j < k then j else j + 1;
      assert c[i] == s[i0] && c[j] == s[j0];
    }
  }

  /** Cutting entry `k` out of a list: the elements before it stay, the later ones move down by one. */
  lemma CutIndex<T>(s: seq<T>, k: nat)
    requires k < |s|
    ensures |s[..k] + s[k + 1..]| == |s| - 1
    ensures forall i :: 0 <= i < |s| - 1 ==> (s[..k] + s[k + 1..])[i] == if i < k then s[i] else s[i + 1]
  {
  }

  /** With unique ids, cutting out entry `k` keeps the ids unique and drops exactly the id of entry `k`. */
  lemma CutIds(h: seq<Item>, k: nat)
    requires UniqueIds(h) && k < |h|
    ensures var r := h[..k] + h[k + 1..];
      UniqueIds(r) && !HasId(r, h[k].id) &&
      forall x :: x != h[k].id ==> (HasId(r, x) <==> HasId(h, x))
  {
    CutIndex(h, k);
    var r := h[..k] + h[k + 1..];
    forall x | x != h[k].id && HasId(h, x) ensures HasId(r, x) {
      var i :| 0 <= i < |h| && h[i].id == x;
      if i < k { assert r[i] == h[i]; } else { assert r[i - 1] == h[i]; }
    }
  }

  /**
   * With unique ids, removal takes out exactly the entry with the id, if
   * there is one, and keeps the others unique and in their order.
   */
  lemma WithoutSpec(h: seq<Item>, id: int)
    requires UniqueIds(h)
    ensures var r := Without(h, id);
      UniqueIds(r) && !HasId(r, id) &&
      (forall x :: x != id ==> (HasId(r, x) <==> HasId(h, x))) &&
      |r| == if HasId(h, id) then |h| - 1 else |h|
    ensures HasId(h, id) ==>
      exists k :: 0 <= k < |h| && h[k].id == id && Without(h, id) == h[..k] + h[k + 1..]
    ensures !HasId(h, id) ==> Without(h, id) == h
  {
    if HasId(h, id) {
      var k :| 0 <= k < |h| && h[k].id == id;
      WithoutAt(h, k);
      CutIds(h, k);
    } else {
      WithoutAbsent(h, id);
    }
  }

  /** Appending an entry with a new id keeps the ids unique and adds exactly that id. */
  lemma AppendIds(w: seq<Item>, t: Item)
    requires UniqueIds(w) && !HasId(w, t.id)
    ensures UniqueIds(w + [t])
    ensures forall x :: HasId(w + [t], x) <==> x == t.id || HasId(w, x)
  {
    var r := w + [t];
    forall x | HasId(r, x) && x != t.id ensures HasId(w, x) {
      var i :| 0 <= i < |r| && r[i].id == x;
      assert r[i] == w[i];
    }
    forall x | HasId(w, x) ensures HasId(r, x) {
      var i :| 0 <= i < |w| && w[i].id == x;
      assert r[i] == w[i];
    }
    assert r[|w|].id == t.id;
    forall i, j | 0 <= i < j < |r| ensures r[i].id != r[j].id {
      assert r[i] == w[i];
      if j < |w| { assert r[j] == w[j]; }
    }
  }

  /**
   * `add` puts the task last, keeps one entry per id, grows the history by
   * one only for a new id, and keeps the other entries in their order.
   */
  lemma RecordSpec(h: seq<Item>, t: Item)
    requires UniqueIds(h)
    ensures var r := Record(h, t);
      UniqueIds(r) && r[|r| - 1] == t && r[..|r| - 1] == Without(h, t.id) &&
      (forall x :: HasId(r, x) <==> x == t.id || HasId(h, x)) &&
      |r| == if HasId(h, t.id) then |h| else |h| + 1
  {
    WithoutSpec(h, t.id);
    var w := Without(h, t.id);
    AppendIds(w, t);
    assert (w + [t])[..|w|] == w;
  }

  /**
   * The history test: three distinct items give three entries; adding an
   * item again keeps one entry and holds the newer payload; removing the
   * only item empties the history.
   */
  lemma HistoryScenarios(task: Item, renamed: Item, epic: Item, subtask: Item)
    requires task.id == 1 && renamed.id == 1 && epic.id == 2 && subtask.id == 3
    ensures |Record(Record(Record([], task), epic), subtask)| == 3
    ensures Record(Record([], task), renamed) == [renamed]
    ensures Record(Record([], task), task) == [task]
    ensures Without(Record([], task), task.id) == []
  {
    assert Record([], task) == [task];
    assert !HasId([task], 2);
    RecordSpec([task], epic);
    var two := Record([task], epic);
    assert !HasId(two, 3) by {
      forall i | 0 <= i < |two| ensures two[i].id != 3 {
        assert HasId(two, two[i].id);
      }
    }
    RecordSpec(two, subtask);
    assert Without([task], 1) == [];
  }

  /**
   * The id map matches the list: each entry's id maps to the node at the
   * same position, and every mapped id has an entry.
   */
  ghost predicate MapMatches<N>(h: seq<Item>, ns: seq<N>, m: map<int, N>)
  {
    |h| == |ns| &&
    (forall i :: 0 <= i < |h| ==> h[i].id in m && m[h[i].id] == ns[i]) &&
    (forall id :: id in m ==> HasId(h, id))
  }

  /** With distinct nodes, a matching map means unique ids and a key set equal to the ids. */
  lemma MapMatchesIds<N>(h: seq<Item>, ns: seq<N>, m: map<int, N>)
    requires MapMatches(h, ns, m)
    requires forall i, j :: 0 <= i < j < |ns| ==> ns[i] != ns[j]
    ensures UniqueIds(h)
    ensures forall id :: id in m <==> HasId(h, id)
  {
    forall i, j | 0 <= i < j < |h| ensures h[i].id != h[j].id {
      assert m[h[i].id] == ns[i] && m[h[j].id] == ns[j] && ns[i] != ns[j];
    }
  }

  /** Cutting entry `k` from list and nodes and its id from the map keeps them matched. */
  lemma MapAfterCut<N>(h: seq<Item>, ns: seq<N>, m: map<int, N>, k: nat)
    requires MapMatches(h, ns, m) && UniqueIds(h) && k < |h|
    ensures MapMatches(h[..k] + h[k + 1..], ns[..k] + ns[k + 1..], m - {h[k].id})
  {
    CutIndex(h, k);
    CutIndex(ns, k);
    var h', ns', m' := h[..k] + h[k + 1..], ns[..k] + ns[k + 1..], m - {h[k].id};
    forall i | 0 <= i < |h'| ensures h'[i].id in m' && m'[h'[i].id] == ns'[i] {
      var j := if i < k then i else i + 1;
      assert h'[i] == h[j] && ns'[i] == ns[j];
      assert h[j].id != h[k].id;
    }
    forall id | id in m' ensures HasId(h', id) {
      assert HasId(h, id);
      var i :| 0 <= i < |h| && h[i].id == id;
      assert i != k;
      if i < k { assert h'[i] == h[i]; } else { assert h'[i - 1] == h[i]; }
    }
  }

  /** Appending an entry with a new id and its node, and mapping the id to it, keeps them matched. */
  lemma MapAfterAppend<N>(h: seq<Item>, ns: seq<N>, m: map<int, N>, t: Item, n: N)
    requires MapMatches(h, ns, m) && !HasId(h, t.id)
    ensures MapMatches(h + [t], ns + [n], m[t.id := n])
  {
    var h' := h + [t];
    forall id | id in m[t.id := n] ensures HasId(h', id) {
      if id == t.id {
        assert h'[|h|].id == id;
      } else {
        var i :| 0 <= i < |h| && h[i].id == id;
        assert h'[i].id == id;
      }
    }
  }

  /** Putting a key overrides whatever it mapped to before. */
  lemma MapPut<K, V>(m: map<K, V>, k: K, v: V)
    ensures (m - {k})[k := v] == m[k := v]
  {
  }

  class Node {
    /** The payload; `removeNode` sets it to null when the node leaves the list. */
    var task: Option<Item>
    var next: Node?
    var prev: Node?

    constructor(prev: Node?, task: Item, next: Node?)
      ensures this.prev == prev && this.task == Some(task) && this.next == next
    {
      this.task := Some(task);
      this.next := next;
      this.prev := prev;
    }
  }

  /**
   * The nodes are distinct and doubly linked in order, from a first node
   * with no predecessor to a last one with no successor, and node `i`
   * holds entry `i`.
   */
  ghost predicate Chain(ns: seq<Node>, hs: seq<Item>)
    reads ns
  {
    |hs| == |ns| &&
    (ns != [] ==> ns[0].prev == null && ns[|ns| - 1].next == null) &&
    (forall i, j :: 0 <= i < j < |ns| ==> ns[i] != ns[j]) &&
    (forall i :: 0 <= i < |ns| ==> ns[i].task == Some(hs[i])) &&
    (forall i :: 0 < i < |ns| ==> ns[i].prev == ns[i - 1]) &&
    (forall i :: 0 <= i < |ns| - 1 ==> ns[i].next == ns[i + 1])
  }

  class HistoryManager {
    var nodeMap: map<int, Node>
    var first: Node?
    var last: Node?
    ghost var nodes: seq<Node>
    ghost var history: seq<Item>

    /** The nodes form a doubly linked list from `first` to `last` holding `history`. */
    ghost predicate ListValid()
      reads this`first, this`last, this`nodes, this`history, nodes
    {
      (nodes == [] ==> first == null && last == null) &&
      (nodes != [] ==> first == nodes[0] && last == nodes[|nodes| - 1]) &&
      Chain(nodes, history)
    }

    /** The list is valid and `nodeMap` maps exactly the listed ids to their nodes. */
    ghost predicate Valid()
      reads this, nodes
    {
      ListValid() && MapMatches(history, nodes, nodeMap)
    }

    /**
     * At most one entry per id, the keys of `nodeMap` are the ids in the
     * history, and `first` and `last` are null exactly when it is empty.
     */
    lemma ValidIds()
      requires Valid()
      ensures UniqueIds(history)
      ensures forall id :: id in nodeMap <==> HasId(history, id)
      ensures first == null <==> history == []
      ensures last == null <==> history == []
    {
      MapMatchesIds(history, nodes, nodeMap);
    }

    /** The neighbours of a listed node are listed too. */
    lemma NeighboursListed(k: nat)
      requires ListValid() && k < |nodes|
      ensures nodes[k].prev != null ==> nodes[k].prev in nodes && nodes[k].prev != nodes[k].next
      ensures nodes[k].next != null ==> nodes[k].next in nodes
      ensures nodes[k].prev != nodes[k] && nodes[k].next != nodes[k]
    {
      if k > 0 {
        assert nodes[k].prev == nodes[k - 1];
      }
      if k < |nodes| - 1 {
        assert nodes[k].next == nodes[k + 1];
      }
    }

    constructor()
      ensures Valid() && history == []
    {
      nodeMap := map[];
      first, last := null, null;
      nodes, history := [], [];
    }

    /** `linkLast`: a fresh node after the old last one. The map is not touched. */
    method LinkLast(t: Item) returns (n: Node)
      requires ListValid()
      modifies this`first, this`last, this`nodes, this`history, last
      ensures ListValid() && fresh(n)
      ensures nodes == old(nodes) + [n] && history == old(history) + [t]
    {
      ghost var ns, hs := nodes, history;
      var prevLast := last;
      n := new Node(prevLast, t, null);
      last := n;
      if prevLast == null {
        first := n;
      } else {
        prevLast.next := n;
      }
      nodes, history := nodes + [n], history + [t];
      assert forall i :: 0 <= i < |ns| ==> nodes[i] == ns[i] && ns[i] != n;
      assert forall i :: 0 <= i < |ns| ==> ns[i].task == old(ns[i].task) && ns[i].prev == old(ns[i].prev);
      assert forall i :: 0 <= i < |ns| - 1 ==> ns[i].next == old(ns[i].next);
    }

    /**
     * After node `k` is unlinked, every other listed node keeps its payload
     * and its links, except that its neighbours now point at each other.
     */
    twostate lemma UnlinkedFields(k: nat)
      requires old(ListValid()) && k < |old(nodes)|
      requires forall o: Node :: old(allocated(o)) && o != old(nodes[k]) && o != old(nodes[k].prev) && o != old(nodes[k].next) ==>
        o.task == old(o.task) && o.prev == old(o.prev) && o.next == old(o.next)
      requires old(nodes[k].prev) != null ==>
        old(nodes[k].prev).next == old(nodes[k].next) &&
        old(nodes[k].prev).prev == old(nodes[k].prev.prev) && old(nodes[k].prev).task == old(nodes[k].prev.task)
      requires old(nodes[k].next) != null ==>
        old(nodes[k].next).prev == old(nodes[k].prev) &&
        old(nodes[k].next).next == old(nodes[k].next.next) && old(nodes[k].next).task == old(nodes[k].next.task)
      ensures forall i :: 0 <= i < |old(nodes)| && i != k ==>
        old(nodes)[i].task == old(nodes[i].task) &&
        old(nodes)[i].prev == (if i == k + 1 then old(nodes[k].prev) else old(nodes[i].prev)) &&
        old(nodes)[i].next == (if i + 1 == k then old(nodes[k].next) else old(nodes[i].next))
    {
      ghost var ns := old(nodes);
      ghost var prev, next := old(nodes[k].prev), old(nodes[k].next);
      assert k > 0 ==> prev == ns[k - 1];
      assert k < |ns| - 1 ==> next == ns[k + 1];
      forall i | 0 <= i < |ns| && i != k
        ensures ns[i].task == old(ns[i].task)
          && ns[i].prev == (if i == k + 1 then prev else old(ns[i].prev))
          && ns[i].next == (if i + 1 == k then next else old(ns[i].next))
      {
        assert ns[i] != ns[k];
      }
    }

    /**
     * Unlinking node `k` keeps a valid list of the other nodes: its
     * neighbours now point at each other and `first` or `last` moved past it
     * where it was an end.
     */
    twostate lemma CutKeepsList(k: nat)
      requires old(ListValid()) && k < |old(nodes)|
      requires nodes == old(nodes[..k] + nodes[k + 1..]) && history == old(history[..k] + history[k + 1..])
      requires forall i :: 0 <= i < |old(nodes)| && i != k ==>
        old(nodes)[i].task == old(nodes[i].task) &&
        old(nodes)[i].prev == (if i == k + 1 then old(nodes[k].prev) else old(nodes[i].prev)) &&
        old(nodes)[i].next == (if i + 1 == k then old(nodes[k].next) else old(nodes[i].next))
      requires first == (if old(nodes[k].prev) == null then old(nodes[k].next) else old(first))
      requires last == (if old(nodes[k].next) == null then old(nodes[k].prev) else old(last))
      ensures ListValid()
      ensures last != null ==> last in old(nodes)
    {
      ghost var ns, hs := old(nodes), old(history);
      ghost var prev, next := old(nodes[k].prev), old(nodes[k].next);
      assert k > 0 ==> prev == ns[k - 1];
      assert k == 0 ==> prev == null;
      assert k < |ns| - 1 ==> next == ns[k + 1];
      assert k == |ns| - 1 ==> next == null;
      CutIndex(ns, k);
      CutIndex(hs, k);
      forall i | 0 <= i < |nodes| ensures nodes[i].task == Some(history[i]) {
        var j := if i < k then i else i + 1;
        assert nodes[i] == ns[j] && history[i] == hs[j];
      }
      forall i | 0 < i < |nodes| ensures nodes[i].prev == nodes[i - 1] {
        if i < k {
          assert nodes[i] == ns[i] && nodes[i - 1] == ns[i - 1];
        } else if i == k {
          assert nodes[i] == ns[k + 1] && nodes[i - 1] == ns[k - 1];
        } else {
          assert nodes[i] == ns[i + 1] && nodes[i - 1] == ns[i];
        }
      }
      forall i | 0 <= i < |nodes| - 1 ensures nodes[i].next == nodes[i + 1] {
        if i + 1 < k {
          assert nodes[i] == ns[i] && nodes[i + 1] == ns[i + 1];
        } else if i + 1 == k {
          assert nodes[i] == ns[k - 1] && nodes[i + 1] == ns[k + 1];
        } else {
          assert nodes[i] == ns[i + 1] && nodes[i + 1] == ns[i + 2];
        }
      }
      CutDistinct(ns, k);
      if nodes != [] {
        var z := |nodes| - 1;
        if k == 0 { assert nodes[0] == ns[1]; } else { assert nodes[0] == ns[0]; }
        if k == |ns| - 1 { assert nodes[z] == ns[k - 1]; } else { assert nodes[z] == ns[z + 1]; }
      }
    }

    /**
     * `removeNode`: the neighbours are linked to each other, the node's own
     * links are cut and its payload is set to null. The map is not touched.
     */
    method RemoveNode(node: Node, ghost k: nat)
      requires ListValid() && k < |nodes| && nodes[k] == node
      modifies this`first, this`last, this`nodes, this`history, node, node.prev, node.next
      ensures ListValid()
      ensures nodes == old(nodes[..k] + nodes[k + 1..]) && history == old(history[..k] + history[k + 1..])
      ensures node.task == None
      ensures last != null ==> last in old(nodes)
    {
      NeighboursListed(k);
      var prev, next := Unlink(node);
      if prev == null {
        first := next;
      }
      if next == null {
        last := prev;
      }
      UnlinkedFields(k);
      nodes, history := nodes[..k] + nodes[k + 1..], history[..k] + history[k + 1..];
      CutKeepsList(k);
    }

    /**
     * The pointer work of `removeNode`: each neighbour is linked to the other,
     * the node's links to them are cut and its payload is set to null.
     */
    static method Unlink(node: Node) returns (prev: Node?, next: Node?)
      requires node.prev != node && node.next != node
      requires node.prev != null ==> node.prev != node.next
      modifies node, node.prev, node.next
      ensures prev == old(node.prev) && next == old(node.next)
      ensures node.task == None
      ensures prev != null ==> node.prev == null && prev.next == next && prev.prev == old(prev.prev) && prev.task == old(prev.task)
      ensures next != null ==> node.next == null && next.prev == prev && next.next == old(next.next) && next.task == old(next.task)
    {
      next := node.next;
      prev := node.prev;
      if prev != null {
        prev.next := next;
        node.prev := null;
      }
      if next != null {
        next.prev := prev;
        node.next := null;
      }
      node.task := None;
    }

    /**
     * The first step of `add`: the node holding the id, if any, is unlinked.
     * The map keeps its entry for the id, which `add` then overwrites.
     */
    method UnlinkId(id: int)
      requires Valid()
      modifies this`first, this`last, this`nodes, this`history, nodes
      ensures ListValid() && unchanged(this`nodeMap)
      ensures history == Without(old(history), id) && !HasId(history, id)
      ensures MapMatches(history, nodes, nodeMap - {id})
      ensures last != null ==> last in old(nodes)
    {
      ghost var k := Locate(id);
      if id in nodeMap {
        var node := nodeMap[id];
        RemoveNode(node, k);
      }
    }

    /**
     * Where the entry for an id sits: removing the id cuts out node `k`,
     * whose neighbours are listed, and leaves the map matched without it.
     */
    lemma Locate(id: int) returns (k: nat)
      requires Valid()
      ensures id in nodeMap ==>
        k < |nodes| && nodes[k] == nodeMap[id] &&
        Without(history, id) == history[..k] + history[k + 1..] &&
        MapMatches(history[..k] + history[k + 1..], nodes[..k] + nodes[k + 1..], nodeMap - {id}) &&
        (nodes[k].prev != null ==> nodes[k].prev in nodes) &&
        (nodes[k].next != null ==> nodes[k].next in nodes)
      ensures id !in nodeMap ==> Without(history, id) == history && nodeMap - {id} == nodeMap
      ensures !HasId(Without(history, id), id)
    {
      ValidIds();
      WithoutLacks(history, id);
      if id in nodeMap {
        k :| 0 <= k < |history| && history[k].id == id;
        WithoutAt(history, k);
        MapAfterCut(history, nodes, nodeMap, k);
        NeighboursListed(k);
      } else {
        k := 0;
        WithoutAbsent(history, id);
      }
    }

    /** `add`: the entry for the task's id, if any, is unlinked and the task is linked last. */
    method Add(t: Item)
      requires Valid()
      modifies this, nodes
      ensures Valid()
      ensures history == Record(old(history), t)
    {
      UnlinkId(t.id);
      ghost var h, ns := history, nodes;
      var linked := LinkLast(t);
      PutLast(t, linked, h, ns);
    }

    /**
     * The last step of `add`: `nodeMap.put` for the node just linked last,
     * which holds `t` after the entries `h` in the nodes `ns`.
     */
    method PutLast(t: Item, n: Node, ghost h: seq<Item>, ghost ns: seq<Node>)
      requires ListValid() && nodes == ns + [n] && history == h + [t]
      requires MapMatches(h, ns, nodeMap - {t.id}) && !HasId(h, t.id)
      modifies this`nodeMap
      ensures Valid() && nodeMap == old(nodeMap)[t.id := n]
    {
      MapAfterAppend(h, ns, nodeMap - {t.id}, t, n);
      MapPut(nodeMap, t.id, n);
      nodeMap := nodeMap[t.id := n];
    }

    /** `remove`: the entry for the id, if any, is unlinked and dropped from the map. */
    method Remove(id: int)
      requires Valid()
      modifies this, nodes
      ensures Valid()
      ensures history == Without(old(history), id)
    {
      ghost var k := Locate(id);
      if id in nodeMap {
        var node := nodeMap[id];
        nodeMap := nodeMap - {id};
        RemoveNode(node, k);
      }
    }

    /** `getHistory`/`getTasks`: walks the list from `first` and collects the tasks, oldest first. */
    method GetHistory() returns (r: seq<Item>)
      requires Valid()
      ensures r == history
    {
      r := [];
      var x := first;
      var i := 0;
      while x != null
        invariant 0 <= i <= |nodes|
        invariant x == if i < |nodes| then nodes[i] else null
        invariant r == history[..i]
        decreases |nodes| - i
      {
        assert ListValid();
        assert i < |nodes| && x == nodes[i];
        assert nodes[i].next == if i == |nodes| - 1 then null else nodes[i + 1];
        r := r + [x.task.value];
        x := x.next;
        i := i + 1;
      }
    }
  }
}
