/**
 * The double-ended queue of src/deque/deque.js seen from the outside: its
 * values from head to tail. This is the view breadth-first search relies on;
 * module LinkedDeque proves that the doubly-linked node structure of the
 * source implements exactly these operations.
 */
module Deques {
  import opened Wrappers

  datatype Deque<T> = Deque(items: seq<T>)

  function Length<T>(d: Deque<T>): nat {
    |d.items|
  }

  /** `push`: the value joins at the tail. */
  function Push<T>(d: Deque<T>, v: T): (r: Deque<T>)
    ensures Length(r) == Length(d) + 1
    ensures r.items[..Length(d)] == d.items && r.items[Length(d)] == v
  {
    Deque(d.items + [v])
  }

  /** `pushleft`: the value joins at the head. */
  function PushLeft<T>(d: Deque<T>, v: T): (r: Deque<T>)
    ensures Length(r) == Length(d) + 1
    ensures r.items[0] == v && r.items[1..] == d.items
  {
    Deque([v] + d.items)
  }

  /** `pop`: the tail value, or null (None) and no change when empty. */
  function Pop<T>(d: Deque<T>): (r: (Option<T>, Deque<T>))
    ensures Length(d) == 0 ==> r.0 == None && r.1 == d
    ensures Length(d) > 0 ==> r.0 == Some(d.items[Length(d) - 1]) && Length(r.1) == Length(d) - 1
    ensures Length(d) > 0 ==> r.1.items + [r.0.value] == d.items
  {
    if |d.items| == 0 then (None, d)
    else (Some(d.items[|d.items| - 1]), Deque(d.items[..|d.items| - 1]))
  }

  /** `popLeft`: the head value, or null (None) and no change when empty. */
  function PopLeft<T>(d: Deque<T>): (r: (Option<T>, Deque<T>))
    ensures Length(d) == 0 ==> r.0 == None && r.1 == d
    ensures Length(d) > 0 ==> r.0 == Some(d.items[0]) && Length(r.1) == Length(d) - 1
    ensures Length(d) > 0 ==> [r.0.value] + r.1.items == d.items
  {
    if |d.items| == 0 then (None, d)
    else (Some(d.items[0]), Deque(d.items[1..]))
  }

  /** The constructor: an empty deque, then `push` of every item in order. */
  function FromSeq<T>(items: seq<T>): (r: Deque<T>)
    ensures r.items == items
  {
    if |items| == 0 then Deque([])
    else Push(FromSeq(items[..|items| - 1]), items[|items| - 1])
  }

  /** Every value `popLeft` yields until it reports empty. */
  function DrainLeft<T>(d: Deque<T>): seq<T>
    decreases Length(d)
  {
    var (v, rest) := PopLeft(d);
    if v.None? then [] else [v.value] + DrainLeft(rest)
  }

  /** Every value `pushleft` puts in, in call order, onto an empty deque. */
  function PushAllLeft<T>(d: Deque<T>, xs: seq<T>): Deque<T>
    decreases |xs|
  {
    if |xs| == 0 then d else PushAllLeft(PushLeft(d, xs[0]), xs[1..])
  }

  function Reverse<T>(xs: seq<T>): (r: seq<T>)
    ensures |r| == |xs|
    ensures forall i | 0 <= i < |xs| :: r[i] == xs[|xs| - 1 - i]
  {
    if |xs| == 0 then [] else Reverse(xs[1..]) + [xs[0]]
  }

  lemma {:induction false} DrainLeftYieldsItems<T>(d: Deque<T>)
    ensures DrainLeft(d) == d.items
    decreases Length(d)
  {
    if Length(d) > 0 {
      var (v, rest) := PopLeft(d);
      DrainLeftYieldsItems(rest);
    }
  }

  /** Built from items (push at the back) and emptied with popLeft: FIFO order. */
  lemma FifoOrder<T>(items: seq<T>)
    ensures DrainLeft(FromSeq(items)) == items
  {
    DrainLeftYieldsItems(FromSeq(items));
  }

  lemma {:induction false} PushAllLeftItems<T>(d: Deque<T>, xs: seq<T>)
    ensures PushAllLeft(d, xs).items == Reverse(xs) + d.items
    decreases |xs|
  {
    if |xs| > 0 {
      var d1 := PushLeft(d, xs[0]);
      PushAllLeftItems(d1, xs[1..]);
      var rs := Reverse(xs[1..]);
      assert d1.items == [xs[0]] + d.items;
      ConcatAssoc(rs, [xs[0]], d.items);
    }
  }

  lemma ConcatAssoc<T>(a: seq<T>, b: seq<T>, c: seq<T>)
    ensures a + (b + c) == (a + b) + c
  {
  }

  /** pushleft followed by popLeft behaves as a stack: LIFO order. */
  lemma LifoOrder<T>(xs: seq<T>)
    ensures DrainLeft(PushAllLeft(Deque([]), xs)) == Reverse(xs)
  {
    PushAllLeftItems(Deque([]), xs);
    DrainLeftYieldsItems(PushAllLeft(Deque([]), xs));
  }
}
