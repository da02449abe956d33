/**
 * The node level of src/deque/deque.js: nodes with `prev`/`next` links, a
 * `head`, a `tail` and a separate length counter. The JavaScript heap is a
 * map from node identities to nodes; `nextId` plays the part of `new Node`,
 * which always yields an object nobody else refers to. Every operation
 * follows the source's branches (empty deque, one element, general case) and
 * is proved to implement the matching operation of module Deques, under the
 * linking invariant `Chain`.
 */
module LinkedDeque {
  import opened Wrappers
  import Deques

  datatype Node<T> = Node(value: T, prev: Option<nat>, next: Option<nat>)

  datatype Deque<T> = Deque(nodes: map<nat, Node<T>>, head: Option<nat>, tail: Option<nat>, length: nat, nextId: nat)

  /**
   * `ids` lists the nodes from head to tail: they are distinct, allocated,
   * `head`/`tail` point at the two ends (null when there is none), each node
   * links back to its predecessor and forward to its successor, and the
   * counter agrees with the number of nodes.
   */
  ghost predicate Chain<T>(d: Deque<T>, ids: seq<nat>) {
    && |ids| == d.length
    && (forall i | 0 <= i < |ids| :: ids[i] in d.nodes && ids[i] < d.nextId)
    && (forall i, j | 0 <= i < j < |ids| :: ids[i] != ids[j])
    && d.head == (if |ids| == 0 then None else Some(ids[0]))
    && d.tail == (if |ids| == 0 then None else Some(ids[|ids| - 1]))
    && (forall i | 0 <= i < |ids| :: Linked(d, ids, i))
  }

  /** The i-th node links back to the (i-1)-th and forward to the (i+1)-th. */
  ghost predicate Linked<T>(d: Deque<T>, ids: seq<nat>, i: int)
    requires 0 <= i < |ids| && ids[i] in d.nodes
  {
    && d.nodes[ids[i]].prev == (if i == 0 then None else Some(ids[i - 1]))
    && d.nodes[ids[i]].next == (if i == |ids| - 1 then None else Some(ids[i + 1]))
  }

  /** The abstract deque a linked structure stands for. */
  ghost function Abs<T>(d: Deque<T>, ids: seq<nat>): Deques.Deque<T>
    requires Chain(d, ids)
  {
    Deques.Deque(seq(|ids|, i requires 0 <= i < |ids| => d.nodes[ids[i]].value))
  }

  /** `new Deque()` without items. */
  function Empty<T>(): (r: Deque<T>)
    ensures Chain(r, []) && Abs(r, []) == Deques.Deque([])
  {
    Deque(map[], None, None, 0, 0)
  }

  /** `push` (deque.js:23-35). */
  function Push<T>(d: Deque<T>, v: T, ghost ids: seq<nat>): (r: Deque<T>)
    requires Chain(d, ids)
    ensures Chain(r, ids + [d.nextId])
    ensures Abs(r, ids + [d.nextId]) == Deques.Push(Abs(d, ids), v)
    ensures r.length == d.length + 1 && r.head.Some? && r.tail == Some(d.nextId)
  {
    var id := d.nextId;
    if d.head.None? then
      Deque(d.nodes[id := Node(v, None, None)], Some(id), Some(id), d.length + 1, id + 1)
    else
      var t := d.tail.value;
      var nodes := d.nodes[t := d.nodes[t].(next := Some(id))][id := Node(v, Some(t), None)];
      var r := Deque(nodes, d.head, Some(id), d.length + 1, id + 1);
      PushKeepsChain(d, v, ids, r);
      r
  }

  lemma PushKeepsChain<T>(d: Deque<T>, v: T, ids: seq<nat>, r: Deque<T>)
    requires Chain(d, ids) && d.head.Some?
    requires r == Deque(d.nodes[d.tail.value := d.nodes[d.tail.value].(next := Some(d.nextId))]
                               [d.nextId := Node(v, d.tail, None)],
                        d.head, Some(d.nextId), d.length + 1, d.nextId + 1)
    ensures Chain(r, ids + [d.nextId])
    ensures Abs(r, ids + [d.nextId]) == Deques.Push(Abs(d, ids), v)
  {
    var id := d.nextId;
    var t := d.tail.value;
    var ids' := ids + [id];
    var n := |ids|;
    forall i | 0 <= i < |ids'|
      ensures ids'[i] in r.nodes && ids'[i] < r.nextId
    {
    }
    forall i | 0 <= i < |ids'|
      ensures Linked(r, ids', i)
    {
      if i < n {
        assert ids'[i] == ids[i] && Linked(d, ids, i);
        if i < n - 1 {
          assert ids[i] != t && ids'[i + 1] == ids[i + 1];
        }
        if i > 0 {
          assert ids'[i - 1] == ids[i - 1];
        }
      } else {
        assert ids'[i - 1] == t;
      }
    }
    assert Chain(r, ids');
    assert Abs(r, ids').items == Abs(d, ids).items + [v];
  }

  /** `pushleft` (deque.js:37-49). */
  function PushLeft<T>(d: Deque<T>, v: T, ghost ids: seq<nat>): (r: Deque<T>)
    requires Chain(d, ids)
    ensures Chain(r, [d.nextId] + ids)
    ensures Abs(r, [d.nextId] + ids) == Deques.PushLeft(Abs(d, ids), v)
    ensures r.length == d.length + 1 && r.head == Some(d.nextId) && r.tail.Some?
  {
    var id := d.nextId;
    if d.head.None? then
      Deque(d.nodes[id := Node(v, None, None)], Some(id), Some(id), d.length + 1, id + 1)
    else
      var h := d.head.value;
      var nodes := d.nodes[h := d.nodes[h].(prev := Some(id))][id := Node(v, None, Some(h))];
      var r := Deque(nodes, Some(id), d.tail, d.length + 1, id + 1);
      PushLeftKeepsChain(d, v, ids, r);
      r
  }

  lemma PushLeftKeepsChain<T>(d: Deque<T>, v: T, ids: seq<nat>, r: Deque<T>)
    requires Chain(d, ids) && d.head.Some?
    requires r == Deque(d.nodes[d.head.value := d.nodes[d.head.value].(prev := Some(d.nextId))]
                               [d.nextId := Node(v, None, d.head)],
                        Some(d.nextId), d.tail, d.length + 1, d.nextId + 1)
    ensures Chain(r, [d.nextId] + ids)
    ensures Abs(r, [d.nextId] + ids) == Deques.PushLeft(Abs(d, ids), v)
  {
    var id := d.nextId;
    var h := d.head.value;
    var ids' := [id] + ids;
    var n := |ids|;
    forall i | 0 <= i < |ids'|
      ensures ids'[i] in r.nodes && ids'[i] < r.nextId
    {
    }
    forall i | 0 <= i < |ids'|
      ensures Linked(r, ids', i)
    {
      if i > 0 {
        assert ids'[i] == ids[i - 1] && Linked(d, ids, i - 1);
        if i > 1 {
          assert ids[i - 1] != h && ids'[i - 1] == ids[i - 2];
        }
        if i < n {
          assert ids'[i + 1] == ids[i];
        }
      } else {
        assert ids'[1] == h;
      }
    }
    assert Chain(r, ids');
    assert Abs(r, ids').items == [v] + Abs(d, ids).items;
  }

  /**
   * `pop` (deque.js:51-69): null on an empty deque; the one-element case
   * clears both ends; otherwise the tail's predecessor becomes the tail and
   * the old tail is unlinked.
   */
  function Pop<T>(d: Deque<T>, ghost ids: seq<nat>): (r: (Option<T>, Deque<T>))
    requires Chain(d, ids)
    ensures d.length == 0 ==> r.0 == None && r.1 == d
    ensures d.length > 0 ==> Chain(r.1, ids[..|ids| - 1])
    ensures d.length > 0 ==> (r.0, Abs(r.1, ids[..|ids| - 1])) == Deques.Pop(Abs(d, ids))
    ensures r.1.length == 0 <==> r.1.head.None?
    ensures r.1.head.None? <==> r.1.tail.None?
  {
    if d.head.None? then (None, d)
    else if d.length == 1 then
      var value := d.nodes[d.head.value].value;
      var r := d.(head := None, tail := None, length := d.length - 1);
      PopLastKeepsChain(d, ids, r);
      (Some(value), r)
    else
      assert Linked(d, ids, |ids| - 1);
      var oldTail := d.tail.value;
      var newTail := d.nodes[oldTail].prev.value;
      var nodes := d.nodes[newTail := d.nodes[newTail].(next := None)][oldTail := d.nodes[oldTail].(prev := None)];
      var r := d.(nodes := nodes, tail := Some(newTail), length := d.length - 1);
      PopKeepsChain(d, ids, r);
      (Some(d.nodes[oldTail].value), r)
  }

  /** The one-element case of `pop` and `popLeft`: both ends become null. */
  lemma PopLastKeepsChain<T>(d: Deque<T>, ids: seq<nat>, r: Deque<T>)
    requires Chain(d, ids) && d.length == 1
    requires r == d.(head := None, tail := None, length := 0)
    ensures Chain(r, []) && ids[..0] == [] && ids[1..] == []
    ensures Abs(d, ids).items == [d.nodes[d.head.value].value]
    ensures Abs(r, []) == Deques.Deque([])
  {
  }

  lemma PopKeepsChain<T>(d: Deque<T>, ids: seq<nat>, r: Deque<T>)
    requires Chain(d, ids) && d.length > 1
    requires Linked(d, ids, |ids| - 1)
    requires d.nodes[d.tail.value].prev.Some?
    requires r == d.(nodes := d.nodes[d.nodes[d.tail.value].prev.value := d.nodes[d.nodes[d.tail.value].prev.value].(next := None)]
                                     [d.tail.value := d.nodes[d.tail.value].(prev := None)],
                     tail := d.nodes[d.tail.value].prev, length := d.length - 1)
    ensures Chain(r, ids[..|ids| - 1])
    ensures Abs(r, ids[..|ids| - 1]).items + [d.nodes[d.tail.value].value] == Abs(d, ids).items
  {
    var n := |ids|;
    var oldTail := ids[n - 1];
    var newTail := ids[n - 2];
    var ids' := ids[..n - 1];
    forall i | 0 <= i < |ids'|
      ensures ids'[i] in r.nodes && ids'[i] < r.nextId
    {
    }
    forall i | 0 <= i < |ids'|
      ensures Linked(r, ids', i)
    {
      assert ids'[i] == ids[i] && ids[i] != oldTail && Linked(d, ids, i);
      if i < n - 2 {
        assert ids[i] != newTail && ids'[i + 1] == ids[i + 1];
      }
      if i > 0 {
        assert ids'[i - 1] == ids[i - 1];
      }
    }
    assert Chain(r, ids');
    assert Abs(r, ids').items + [d.nodes[oldTail].value] == Abs(d, ids).items;
  }

  /** `popLeft` (deque.js:71-89), the mirror image of `pop`. */
  function PopLeft<T>(d: Deque<T>, ghost ids: seq<nat>): (r: (Option<T>, Deque<T>))
    requires Chain(d, ids)
    ensures d.length == 0 ==> r.0 == None && r.1 == d
    ensures d.length > 0 ==> Chain(r.1, ids[1..])
    ensures d.length > 0 ==> (r.0, Abs(r.1, ids[1..])) == Deques.PopLeft(Abs(d, ids))
    ensures r.1.length == 0 <==> r.1.head.None?
    ensures r.1.head.None? <==> r.1.tail.None?
  {
    if d.head.None? then (None, d)
    else if d.length == 1 then
      var value := d.nodes[d.head.value].value;
      var r := d.(head := None, tail := None, length := d.length - 1);
      PopLastKeepsChain(d, ids, r);
      (Some(value), r)
    else
      assert Linked(d, ids, 0);
      var oldHead := d.head.value;
      var newHead := d.nodes[oldHead].next.value;
      var nodes := d.nodes[newHead := d.nodes[newHead].(prev := None)][oldHead := d.nodes[oldHead].(next := None)];
      var r := d.(nodes := nodes, head := Some(newHead), length := d.length - 1);
      PopLeftKeepsChain(d, ids, r);
      (Some(d.nodes[oldHead].value), r)
  }

  lemma PopLeftKeepsChain<T>(d: Deque<T>, ids: seq<nat>, r: Deque<T>)
    requires Chain(d, ids) && d.length > 1
    requires Linked(d, ids, 0)
    requires d.nodes[d.head.value].next.Some?
    requires r == d.(nodes := d.nodes[d.nodes[d.head.value].next.value := d.nodes[d.nodes[d.head.value].next.value].(prev := None)]
                                     [d.head.value := d.nodes[d.head.value].(next := None)],
                     head := d.nodes[d.head.value].next, length := d.length - 1)
    ensures Chain(r, ids[1..])
    ensures [d.nodes[d.head.value].value] + Abs(r, ids[1..]).items == Abs(d, ids).items
  {
    var n := |ids|;
    var oldHead := ids[0];
    var newHead := ids[1];
    var ids' := ids[1..];
    forall i | 0 <= i < |ids'|
      ensures ids'[i] in r.nodes && ids'[i] < r.nextId
    {
    }
    forall i | 0 <= i < |ids'|
      ensures Linked(r, ids', i)
    {
      assert ids'[i] == ids[i + 1] && ids[i + 1] != oldHead && Linked(d, ids, i + 1);
      if i > 0 {
        assert ids[i + 1] != newHead && ids'[i - 1] == ids[i];
      }
      if i < n - 2 {
        assert ids'[i + 1] == ids[i + 2];
      }
    }
    assert Chain(r, ids');
    assert [d.nodes[oldHead].value] + Abs(r, ids').items == Abs(d, ids).items;
  }

  /** The node identities the constructor allocates for n items: 0, 1, ..., n-1. */
  ghost function Ids(n: nat): (r: seq<nat>)
    ensures |r| == n && forall i | 0 <= i < n :: r[i] == i
  {
    seq(n, i => i)
  }

  /** `new Deque(items)` (deque.js:7-17): `push` of every item in order. */
  function FromItems<T>(items: seq<T>): (r: Deque<T>)
    ensures r.nextId == |items|
    ensures Chain(r, Ids(|items|))
    ensures Abs(r, Ids(|items|)) == Deques.Deque(items)
  {
    if |items| == 0 then Empty()
    else
      var n := |items| - 1;
      var d := FromItems(items[..n]);
      assert Ids(n) + [n] == Ids(n + 1);
      Push(d, items[n], Ids(n))
  }
}
