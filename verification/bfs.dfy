/**
 * The two breadth-first searches of src/searchAlgorithms/breadthFirstSearch.js.
 *
 * `BreadthFirstPath` returns the cells in the order the search takes them off
 * the queue, ending at the first goal it meets (or after the whole region of
 * the start is exhausted). `ShortestDistance` returns the number of moves to
 * the nearest goal, or -1.
 */
module BreadthFirst {
  import opened Grids
  import Deques

  /** Cells later in the sequence are never nearer to s than earlier ones. */
  ghost predicate NearestFirst(g: Grid, s: Position, xs: seq<Position>)
    requires IsGrid(g)
  {
    forall i, j, k | 0 <= i < j < |xs| && WithinSteps(g, s, xs[j], k) :: WithinSteps(g, s, xs[i], k)
  }

  /** Labels that are the exact distances of the cells, in non-decreasing order. */
  ghost predicate Labelled(g: Grid, s: Position, xs: seq<Position>, lab: seq<nat>)
    requires IsGrid(g)
  {
    && |lab| == |xs|
    && (forall i | 0 <= i < |xs| :: AtDistance(g, s, xs[i], lab[i]))
    && (forall i, j | 0 <= i < j < |lab| :: lab[i] <= lab[j])
  }

  /** Everything within l moves of s lies in e. */
  ghost predicate Complete(g: Grid, s: Position, l: int, e: set<Position>)
    requires IsGrid(g)
  {
    forall v | WithinSteps(g, s, v, l) :: v in e
  }

  /** The open ones among the first i neighbours of u lie in v. */
  ghost predicate Tried(g: Grid, u: Position, i: int, v: set<Position>)
    requires IsGrid(g)
  {
    forall j | 0 <= j < i && j < 4 && Open(g, Neighbors(u)[j]) :: Neighbors(u)[j] in v
  }

  predicate NoGoal(g: Grid, xs: seq<Position>)
    requires IsGrid(g)
  {
    forall i | 0 <= i < |xs| :: !GoalAt(g, xs[i])
  }

  lemma LabelledNearestFirst(g: Grid, s: Position, xs: seq<Position>, lab: seq<nat>)
    requires IsGrid(g) && Labelled(g, s, xs, lab)
    ensures NearestFirst(g, s, xs)
  {
    forall i, j, k | 0 <= i < j < |xs| && WithinSteps(g, s, xs[j], k)
      ensures WithinSteps(g, s, xs[i], k)
    {
      AtDistanceAtMost(g, s, xs[j], lab[j], k);
      WithinMono(g, s, xs[i], lab[i], k);
    }
  }

  /** A distinct sequence of cells of the grid has at most rows × cols elements. */
  lemma FitsGrid(g: Grid, xs: seq<Position>)
    requires IsGrid(g) && Distinct(xs)
    requires forall i | 0 <= i < |xs| :: InBounds(g, xs[i])
    ensures |xs| <= |g| * Width(g)
  {
    forall i | 0 <= i < |xs|
      ensures xs[i] in Cells(g)
    {
      CellsAreInBounds(g, xs[i]);
    }
    DistinctWithin(xs, Cells(g));
    CellsCount(g);
  }

  /**
   * The cells queued so far by `breadthFirstPath`: distinct, the start first
   * and open cells after it, each labelled with its distance, and exactly
   * the visited set.
   */
  ghost predicate Registered(g: Grid, s: Position, order: seq<Position>, lab: seq<nat>, visited: set<Position>)
    requires IsGrid(g)
  {
    && |order| >= 1 && order[0] == s
    && Distinct(order) && visited == Elements(order)
    && (forall i | 1 <= i < |order| :: Open(g, order[i]))
    && Labelled(g, s, order, lab)
  }

  lemma RegisteredAppend(g: Grid, s: Position, order: seq<Position>, lab: seq<nat>, visited: set<Position>,
                         n: Position, l: nat)
    requires IsGrid(g) && Registered(g, s, order, lab, visited)
    requires n !in visited && Open(g, n) && AtDistance(g, s, n, l) && lab[|lab| - 1] <= l
    ensures Registered(g, s, order + [n], lab + [l], visited + {n})
  {
    DistinctAppend(order, n);
    ElementsAppend(order, n);
    var lab' := lab + [l];
    forall i, j | 0 <= i < j < |lab'|
      ensures lab'[i] <= lab'[j]
    {
      if j == |lab| && i < |lab| - 1 {
        assert lab[i] <= lab[|lab| - 1];
      }
    }
  }

  /**
   * The state of `breadthFirstPath` at the top of its loop. `order` is every
   * cell ever queued, in queueing order (the path followed by the queue),
   * `lab` their distances from s, and `done` the cells whose neighbours have
   * all been examined.
   */
  ghost predicate Searching(g: Grid, s: Position, path: seq<Position>, queue: seq<Position>,
                            visited: set<Position>, order: seq<Position>, lab: seq<nat>, done: set<Position>)
    requires IsGrid(g)
  {
    && order == path + queue
    && Registered(g, s, order, lab, visited)
    && (|queue| > 0 ==> lab[|lab| - 1] <= lab[|path|] + 1)
    && NoGoal(g, path)
    && done == Elements(path) && ClosedInto(g, done, visited)
    && (|queue| > 0 ==> Complete(g, s, lab[|path|] as int - 1, done))
  }

  /**
   * The state while the neighbours of u, the last cell of the path, are
   * examined: the first i of them are visited when open, and nothing queued
   * is more than one move further than u.
   */
  ghost predicate Expanding(g: Grid, s: Position, path: seq<Position>, queue: seq<Position>,
                            visited: set<Position>, order: seq<Position>, lab: seq<nat>, done: set<Position>,
                            u: Position, lu: nat, i: nat)
    requires IsGrid(g)
  {
    && |path| >= 1 && path[|path| - 1] == u
    && order == path + queue
    && Registered(g, s, order, lab, visited)
    && lab[|path| - 1] == lu && lab[|lab| - 1] <= lu + 1
    && NoGoal(g, path)
    && done == Elements(path[..|path| - 1]) && ClosedInto(g, done, visited)
    && i <= 4 && Tried(g, u, i, visited)
    && Complete(g, s, lu as int - 1, done)
  }

  lemma PathStart(g: Grid, s: Position, path: seq<Position>, queue: seq<Position>,
                  visited: set<Position>, order: seq<Position>, lab: seq<nat>, done: set<Position>)
    requires IsGrid(g) && |queue| > 0
    requires Searching(g, s, path, queue, visited, order, lab, done)
    requires !GoalAt(g, queue[0])
    ensures Expanding(g, s, path + [queue[0]], queue[1..], visited, order, lab, done, queue[0], lab[|path|], 0)
  {
    var path' := path + [queue[0]];
    assert path' + queue[1..] == order;
    assert path'[..|path'| - 1] == path;
  }

  lemma PathPush(g: Grid, s: Position, path: seq<Position>, queue: seq<Position>,
                 visited: set<Position>, order: seq<Position>, lab: seq<nat>, done: set<Position>,
                 u: Position, lu: nat, i: nat)
    requires IsGrid(g) && i < 4
    requires Expanding(g, s, path, queue, visited, order, lab, done, u, lu, i)
    requires Open(g, Neighbors(u)[i]) && Neighbors(u)[i] !in visited
    ensures var n := Neighbors(u)[i];
      Expanding(g, s, path, queue + [n], visited + {n}, order + [n], lab + [lu + 1], done, u, lu, i + 1)
  {
    var n := Neighbors(u)[i];
    if WithinSteps(g, s, n, lu) {
      Frontier(g, s, done, visited, lu, n);
    }
    assert AtDistance(g, s, u, lu);
    WithinNext(g, s, u, i, lu);
    RegisteredAppend(g, s, order, lab, visited, n, lu + 1);
    assert path + (queue + [n]) == order + [n];
  }

  lemma PathSkip(g: Grid, s: Position, path: seq<Position>, queue: seq<Position>,
                 visited: set<Position>, order: seq<Position>, lab: seq<nat>, done: set<Position>,
                 u: Position, lu: nat, i: nat)
    requires IsGrid(g) && i < 4
    requires Expanding(g, s, path, queue, visited, order, lab, done, u, lu, i)
    requires !(InBounds(g, Neighbors(u)[i]) && Neighbors(u)[i] !in visited && At(g, Neighbors(u)[i]) != Wall)
    ensures Expanding(g, s, path, queue, visited, order, lab, done, u, lu, i + 1)
  {
  }

  lemma PathFinish(g: Grid, s: Position, path: seq<Position>, queue: seq<Position>,
                   visited: set<Position>, order: seq<Position>, lab: seq<nat>, done: set<Position>,
                   u: Position, lu: nat)
    requires IsGrid(g)
    requires Expanding(g, s, path, queue, visited, order, lab, done, u, lu, 4)
    ensures Searching(g, s, path, queue, visited, order, lab, done + {u})
  {
    var done' := done + {u};
    assert path[..|path| - 1] + [u] == path;
    ElementsAppend(path[..|path| - 1], u);
    if |queue| > 0 {
      assert lu <= lab[|path|];
      if lab[|path|] == lu + 1 {
        forall v | WithinSteps(g, s, v, lu)
          ensures v in done'
        {
          Frontier(g, s, done', visited, lu, v);
        }
      }
    }
  }

  /** The loop ends at a goal taken off the queue: the path so far ends at a nearest goal. */
  lemma PathGoal(g: Grid, s: Position, path: seq<Position>, queue: seq<Position>,
                 visited: set<Position>, order: seq<Position>, lab: seq<nat>, done: set<Position>,
                 path': seq<Position>)
    requires IsGrid(g) && |queue| > 0
    requires Searching(g, s, path, queue, visited, order, lab, done)
    requires GoalAt(g, queue[0]) && path' == path + [queue[0]]
    ensures |path'| >= 1 && path'[0] == s
    ensures Distinct(path')
    ensures forall i | 1 <= i < |path'| :: Open(g, path'[i])
    ensures forall i | 0 <= i < |path'| :: Reachable(g, s, path'[i])
    ensures forall i | 0 <= i < |path'| - 1 :: !GoalAt(g, path'[i])
    ensures GoalAt(g, path'[|path'| - 1]) <==> exists p :: GoalAt(g, p) && Reachable(g, s, p)
    ensures !GoalAt(g, path'[|path'| - 1]) ==> forall p :: p in path' <==> Reachable(g, s, p)
    ensures GoalAt(g, path'[|path'| - 1]) ==>
      forall p, k | GoalAt(g, p) && WithinSteps(g, s, p, k) :: WithinSteps(g, s, path'[|path'| - 1], k)
    ensures NearestFirst(g, s, path')
    ensures InBounds(g, s) ==> |path'| <= |g| * Width(g)
  {
    var n := |path'|;
    assert path' + queue[1..] == order;
    assert path' == order[..n];
    assert Labelled(g, s, path', lab[..n]);
    Conclude(g, s, path', lab[..n]);
    var l := lab[n - 1];
    forall p, k | GoalAt(g, p) && WithinSteps(g, s, p, k)
      ensures WithinSteps(g, s, queue[0], k)
    {
      if k < l {
        WithinMono(g, s, p, k, l - 1);
      } else {
        WithinMono(g, s, queue[0], l, k);
      }
    }
    assert path'[n - 1] == queue[0];
  }

  /** The loop ends with the queue empty: the path is the whole region of s. */
  lemma PathExhausted(g: Grid, s: Position, path: seq<Position>,
                      visited: set<Position>, order: seq<Position>, lab: seq<nat>, done: set<Position>)
    requires IsGrid(g)
    requires Searching(g, s, path, [], visited, order, lab, done)
    ensures |path| >= 1 && path[0] == s
    ensures Distinct(path)
    ensures forall i | 1 <= i < |path| :: Open(g, path[i])
    ensures forall i | 0 <= i < |path| :: Reachable(g, s, path[i])
    ensures forall i | 0 <= i < |path| - 1 :: !GoalAt(g, path[i])
    ensures GoalAt(g, path[|path| - 1]) <==> exists p :: GoalAt(g, p) && Reachable(g, s, p)
    ensures !GoalAt(g, path[|path| - 1]) ==> forall p :: p in path <==> Reachable(g, s, p)
    ensures GoalAt(g, path[|path| - 1]) ==>
      forall p, k | GoalAt(g, p) && WithinSteps(g, s, p, k) :: WithinSteps(g, s, path[|path| - 1], k)
    ensures NearestFirst(g, s, path)
    ensures InBounds(g, s) ==> |path| <= |g| * Width(g)
  {
    assert order == path;
    ClosedHoldsReachable(g, s, done);
    Conclude(g, s, path, lab);
    assert !GoalAt(g, path[|path| - 1]);
  }

  /** The state before the first iteration: only the start is queued and visited. */
  lemma PathInit(g: Grid, s: Position)
    requires IsGrid(g)
    ensures Searching(g, s, [], [s], {s}, [s], [0], {})
  {
    assert Elements([s]) == {s};
    assert AtDistance(g, s, s, 0);
  }

  /** What holds of the returned path whichever way the search ends. */
  lemma Conclude(g: Grid, s: Position, path: seq<Position>, lab: seq<nat>)
    requires IsGrid(g) && |path| >= 1 && path[0] == s && Distinct(path)
    requires forall i | 1 <= i < |path| :: Open(g, path[i])
    requires Labelled(g, s, path, lab)
    ensures forall i | 0 <= i < |path| :: Reachable(g, s, path[i])
    ensures NearestFirst(g, s, path)
    ensures InBounds(g, s) ==> |path| <= |g| * Width(g)
  {
    LabelledNearestFirst(g, s, path, lab);
    forall i | 0 <= i < |path|
      ensures Reachable(g, s, path[i])
    {
      assert WithinSteps(g, s, path[i], lab[i]);
    }
    if InBounds(g, s) {
      FitsGrid(g, path);
    }
  }

  /**
   * The neighbour loop of `breadthFirstPath` (breadthFirstSearch.js:25-44):
   * up, down, left, right; a neighbour is queued and marked visited unless it
   * is outside the grid, already visited or a wall.
   */
  method EnqueueNeighbors(g: Grid, u: Position, visited: set<Position>, queue: Deques.Deque<Position>,
                          ghost s: Position, ghost path: seq<Position>, ghost order: seq<Position>,
                          ghost lab: seq<nat>, ghost done: set<Position>, ghost lu: nat)
    returns (visited': set<Position>, queue': Deques.Deque<Position>, ghost order': seq<Position>, ghost lab': seq<nat>)
    requires IsGrid(g)
    requires Expanding(g, s, path, queue.items, visited, order, lab, done, u, lu, 0)
    ensures Searching(g, s, path, queue'.items, visited', order', lab', done + {u})
    ensures Tried(g, u, 4, visited')
    ensures visited <= visited' && visited' - visited <= Cells(g)
    ensures visited' == visited ==> queue' == queue
  {
    visited', queue', order', lab' := visited, queue, order, lab;
    var ns := Neighbors(u);
    var i := 0;
    while i < 4
      invariant 0 <= i <= 4
      invariant Expanding(g, s, path, queue'.items, visited', order', lab', done, u, lu, i)
      invariant visited <= visited' && visited' - visited <= Cells(g)
      invariant visited' == visited ==> queue' == queue
    {
      var n := ns[i];
      if InBounds(g, n) && n !in visited' && At(g, n) != Wall {
        PathPush(g, s, path, queue'.items, visited', order', lab', done, u, lu, i);
        CellsAreInBounds(g, n);
        ghost var before := queue'.items;
        visited' := visited' + {n};
        queue' := Deques.Push(queue', n);
        assert queue'.items == before + [n];
        order' := order' + [n];
        lab' := lab' + [lu + 1];
      } else {
        PathSkip(g, s, path, queue'.items, visited', order', lab', done, u, lu, i);
      }
      i := i + 1;
    }
    PathFinish(g, s, path, queue'.items, visited', order', lab', done, u, lu);
  }

  /**
   * `breadthFirstPath` (breadthFirstSearch.js:11-48). The start is marked
   * visited before anything else; a cell is appended to the path when it is
   * taken off the queue and the search returns as soon as that cell is a
   * goal. `grid[startRow]` must exist.
   */
  method BreadthFirstPath(g: Grid, s: Position) returns (path: seq<Position>)
    requires IsGrid(g) && 0 <= s.0 < |g|
    ensures |path| >= 1 && path[0] == s
    ensures Distinct(path)
    ensures forall i | 1 <= i < |path| :: Open(g, path[i])
    ensures forall i | 0 <= i < |path| :: Reachable(g, s, path[i])
    ensures forall i | 0 <= i < |path| - 1 :: !GoalAt(g, path[i])
    ensures GoalAt(g, path[|path| - 1]) <==> exists p :: GoalAt(g, p) && Reachable(g, s, p)
    ensures !GoalAt(g, path[|path| - 1]) ==> forall p :: p in path <==> Reachable(g, s, p)
    ensures GoalAt(g, path[|path| - 1]) ==>
      forall p, k | GoalAt(g, p) && WithinSteps(g, s, p, k) :: WithinSteps(g, s, path[|path| - 1], k)
    ensures NearestFirst(g, s, path)
    ensures InBounds(g, s) ==> |path| <= |g| * Width(g)
  {
    var visited := {s};
    var queue := Deques.Deque([s]);
    path := [];
    ghost var order := [s];
    ghost var lab: seq<nat> := [0];
    ghost var done: set<Position> := {};
    PathInit(g, s);

    while Deques.Length(queue) != 0
      invariant Searching(g, s, path, queue.items, visited, order, lab, done)
      decreases |Cells(g) - visited|, |queue.items|
    {
      ghost var visited0 := visited;
      ghost var queue0 := queue;
      ghost var path0 := path;
      ghost var lu := lab[|path|];
      var (head, rest) := Deques.PopLeft(queue);
      var u := head.value;
      queue := rest;
      path := path + [u];
      if GoalAt(g, u) {
        PathGoal(g, s, path0, queue0.items, visited, order, lab, done, path);
        return path;
      }
      PathStart(g, s, path0, queue0.items, visited, order, lab, done);
      visited, queue, order, lab := EnqueueNeighbors(g, u, visited, queue, s, path, order, lab, done, lu);
      done := done + {u};
      if visited != visited0 {
        DifferenceShrinks(Cells(g), visited0, visited);
      }
    }

    PathExhausted(g, s, path, visited, order, lab, done);
  }

  /** One queue entry of `shortestDistance`: a cell and its move count. */
  datatype Step = Step(pos: Position, distance: nat)

  function Places(q: seq<Step>): set<Position> {
    set j | 0 <= j < |q| :: q[j].pos
  }

  lemma PlacesAppend(q: seq<Step>, st: Step)
    ensures Places(q + [st]) == Places(q) + {st.pos}
  {
    var q' := q + [st];
    forall x
      ensures x in Places(q') <==> x in Places(q) + {st.pos}
    {
      if x == st.pos {
        assert q'[|q|].pos == x;
      }
      if x in Places(q) {
        var j :| 0 <= j < |q| && q[j].pos == x;
        assert q'[j].pos == x;
      }
      if x in Places(q') {
        var j :| 0 <= j < |q'| && q'[j].pos == x;
        if j < |q| {
          assert q[j].pos == x;
        }
      }
    }
    assert q'[|q|].pos == st.pos;
  }

  /**
   * An entry's distance is achievable, and exact unless the entry is the
   * start queued again.
   */
  ghost predicate Sound(g: Grid, s: Position, st: Step)
    requires IsGrid(g)
  {
    WithinSteps(g, s, st.pos, st.distance)
    && (st.pos != s ==> !WithinSteps(g, s, st.pos, st.distance as int - 1))
  }

  /** Sound entries in non-decreasing order of distance, all between lo and hi. */
  ghost predicate Queued(g: Grid, s: Position, q: seq<Step>, lo: int, hi: int)
    requires IsGrid(g)
  {
    && (forall j | 0 <= j < |q| :: Sound(g, s, q[j]) && lo <= q[j].distance <= hi)
    && (forall a, b | 0 <= a < b < |q| :: q[a].distance <= q[b].distance)
  }

  lemma QueuedTail(g: Grid, s: Position, q: seq<Step>, lo: int, hi: int)
    requires IsGrid(g) && Queued(g, s, q, lo, hi) && |q| > 0
    ensures Queued(g, s, q[1..], lo, hi)
  {
    var q' := q[1..];
    forall j | 0 <= j < |q'|
      ensures Sound(g, s, q'[j]) && lo <= q'[j].distance <= hi
    {
      assert q'[j] == q[j + 1];
    }
    forall a, b | 0 <= a < b < |q'|
      ensures q'[a].distance <= q'[b].distance
    {
      assert q'[a] == q[a + 1] && q'[b] == q[b + 1];
    }
  }

  lemma QueuedAppend(g: Grid, s: Position, q: seq<Step>, st: Step, lo: int, hi: int)
    requires IsGrid(g) && Queued(g, s, q, lo, hi)
    requires Sound(g, s, st) && st.distance == hi && lo <= hi
    ensures Queued(g, s, q + [st], lo, hi)
  {
  }

  /** The state of `shortestDistance` at the top of its loop; `expanded` holds the cells taken off the queue. */
  ghost predicate Measuring(g: Grid, s: Position, q: seq<Step>, visited: set<Position>, expanded: set<Position>)
    requires IsGrid(g)
  {
    && (|q| > 0 ==> Queued(g, s, q, q[0].distance, q[0].distance + 1))
    && Places(q) <= visited + {s}
    && (expanded == {} ==> q == [Step(s, 0)])
    && (expanded != {} ==> s in expanded)
    && expanded - {s} <= visited && visited <= expanded + Places(q)
    && ClosedInto(g, expanded, visited)
    && (forall v | v in expanded :: !GoalAt(g, v))
    && (|q| > 0 ==> Complete(g, s, q[0].distance as int - 1, expanded))
  }

  /** The state while the neighbours of u, taken off the queue at distance du, are examined. */
  ghost predicate Relaxing(g: Grid, s: Position, q: seq<Step>, visited: set<Position>, expanded: set<Position>,
                           u: Position, du: nat, i: nat)
    requires IsGrid(g)
  {
    && Sound(g, s, Step(u, du)) && (u != s ==> u in visited) && !GoalAt(g, u)
    && Queued(g, s, q, du, du + 1)
    && Places(q) <= visited + {s}
    && (expanded == {} ==> u == s && du == 0)
    && (expanded != {} ==> s in expanded)
    && expanded - {s} <= visited && visited <= expanded + {u} + Places(q)
    && ClosedInto(g, expanded, visited)
    && (forall v | v in expanded :: !GoalAt(g, v))
    && i <= 4 && Tried(g, u, i, visited)
    && Complete(g, s, du as int - 1, expanded)
  }

  lemma MeasureStart(g: Grid, s: Position, q: seq<Step>, visited: set<Position>, expanded: set<Position>)
    requires IsGrid(g) && |q| > 0
    requires Measuring(g, s, q, visited, expanded)
    requires !GoalAt(g, q[0].pos)
    ensures Relaxing(g, s, q[1..], visited, expanded, q[0].pos, q[0].distance, 0)
  {
    var q' := q[1..];
    QueuedTail(g, s, q, q[0].distance, q[0].distance + 1);
    assert q[0].pos in Places(q);
    forall x | x in Places(q)
      ensures x == q[0].pos || x in Places(q')
    {
      var j :| 0 <= j < |q| && q[j].pos == x;
      if j > 0 {
        assert q'[j - 1].pos == x;
      }
    }
    forall x | x in Places(q')
      ensures x in Places(q)
    {
      var j :| 0 <= j < |q'| && q'[j].pos == x;
      assert q[j + 1].pos == x;
    }
  }

  lemma MeasurePush(g: Grid, s: Position, q: seq<Step>, visited: set<Position>, expanded: set<Position>,
                    u: Position, du: nat, i: nat)
    requires IsGrid(g) && i < 4
    requires Relaxing(g, s, q, visited, expanded, u, du, i)
    requires Open(g, Neighbors(u)[i]) && Neighbors(u)[i] !in visited
    ensures var n := Neighbors(u)[i];
      Relaxing(g, s, q + [Step(n, du + 1)], visited + {n}, expanded, u, du, i + 1)
  {
    var n := Neighbors(u)[i];
    if WithinSteps(g, s, n, du) {
      Frontier(g, s, expanded, visited, du, n);
    }
    WithinNext(g, s, u, i, du);
    QueuedAppend(g, s, q, Step(n, du + 1), du, du + 1);
    PlacesAppend(q, Step(n, du + 1));
  }

  lemma MeasureSkip(g: Grid, s: Position, q: seq<Step>, visited: set<Position>, expanded: set<Position>,
                    u: Position, du: nat, i: nat)
    requires IsGrid(g) && i < 4
    requires Relaxing(g, s, q, visited, expanded, u, du, i)
    requires !(InBounds(g, Neighbors(u)[i]) && At(g, Neighbors(u)[i]) != Wall && Neighbors(u)[i] !in visited)
    ensures Relaxing(g, s, q, visited, expanded, u, du, i + 1)
  {
  }

  lemma MeasureFinish(g: Grid, s: Position, q: seq<Step>, visited: set<Position>, expanded: set<Position>,
                      u: Position, du: nat)
    requires IsGrid(g)
    requires Relaxing(g, s, q, visited, expanded, u, du, 4)
    ensures Measuring(g, s, q, visited, expanded + {u})
  {
    var e := expanded + {u};
    if |q| > 0 && q[0].distance == du + 1 {
      forall v | WithinSteps(g, s, v, du)
        ensures v in e
      {
        Frontier(g, s, e, visited, du, v);
        if v !in e {
          var j :| 0 <= j < |q| && q[j].pos == v;
          AtDistanceAtMost(g, s, v, q[j].distance, du);
        }
      }
    }
  }

  /** The cell at the head of the queue is a goal: its distance is the nearest goal's. */
  lemma MeasureGoal(g: Grid, s: Position, q: seq<Step>, visited: set<Position>, expanded: set<Position>)
    requires IsGrid(g) && |q| > 0
    requires Measuring(g, s, q, visited, expanded)
    requires GoalAt(g, q[0].pos)
    ensures exists p :: GoalAt(g, p) && WithinSteps(g, s, p, q[0].distance)
    ensures forall p, k | GoalAt(g, p) && WithinSteps(g, s, p, k) :: q[0].distance <= k
    ensures exists p :: GoalAt(g, p) && Reachable(g, s, p)
  {
    var d := q[0].distance;
    forall p, k | GoalAt(g, p) && WithinSteps(g, s, p, k)
      ensures d <= k
    {
      if k < d {
        WithinMono(g, s, p, k, d - 1);
      }
    }
    assert WithinSteps(g, s, q[0].pos, d);
  }

  /** The queue ran empty: no goal is reachable. */
  lemma MeasureExhausted(g: Grid, s: Position, visited: set<Position>, expanded: set<Position>)
    requires IsGrid(g)
    requires Measuring(g, s, [], visited, expanded)
    ensures forall p | GoalAt(g, p) :: !Reachable(g, s, p)
  {
    assert Closed(g, expanded);
    ClosedHoldsReachable(g, s, expanded);
  }

  /**
   * The neighbour loop of `shortestDistance` (breadthFirstSearch.js:62-80): a
   * neighbour inside the grid that is neither a wall nor visited is marked
   * visited and queued one move further than u.
   */
  method RelaxNeighbors(g: Grid, u: Position, du: nat, visited: set<Position>, queue: Deques.Deque<Step>,
                        ghost s: Position, ghost expanded: set<Position>)
    returns (visited': set<Position>, queue': Deques.Deque<Step>)
    requires IsGrid(g)
    requires Relaxing(g, s, queue.items, visited, expanded, u, du, 0)
    ensures Measuring(g, s, queue'.items, visited', expanded + {u})
    ensures Tried(g, u, 4, visited')
    ensures visited <= visited' && visited' - visited <= Cells(g)
    ensures visited' == visited ==> queue' == queue
  {
    visited', queue' := visited, queue;
    var ns := Neighbors(u);
    var i := 0;
    while i < 4
      invariant 0 <= i <= 4
      invariant Relaxing(g, s, queue'.items, visited', expanded, u, du, i)
      invariant visited <= visited' && visited' - visited <= Cells(g)
      invariant visited' == visited ==> queue' == queue
    {
      var n := ns[i];
      if InBounds(g, n) && At(g, n) != Wall && n !in visited' {
        MeasurePush(g, s, queue'.items, visited', expanded, u, du, i);
        CellsAreInBounds(g, n);
        ghost var before := queue'.items;
        visited' := visited' + {n};
        queue' := Deques.Push(queue', Step(n, du + 1));
        assert queue'.items == before + [Step(n, du + 1)];
      } else {
        MeasureSkip(g, s, queue'.items, visited', expanded, u, du, i);
      }
      i := i + 1;
    }
    MeasureFinish(g, s, queue'.items, visited', expanded, u, du);
  }

  /**
   * `shortestDistance` (breadthFirstSearch.js:50-84). Its visited set is built
   * as `new Set(string)`, a set of single characters that never equals a
   * position key, so the start is not marked visited and can be queued a
   * second time from a neighbour. The wall test comes before the visited
   * test. The result is the number of moves to the nearest goal, or -1.
   */
  method ShortestDistance(g: Grid, s: Position) returns (r: int)
    requires IsGrid(g) && 0 <= s.0 < |g|
    ensures r >= -1
    ensures r == -1 <==> forall p | GoalAt(g, p) :: !Reachable(g, s, p)
    ensures r >= 0 ==> exists p :: GoalAt(g, p) && WithinSteps(g, s, p, r)
    ensures r >= 0 ==> forall p, k | GoalAt(g, p) && WithinSteps(g, s, p, k) :: r <= k
  {
    var visited: set<Position> := {};
    var queue := Deques.Deque([Step(s, 0)]);
    ghost var expanded: set<Position> := {};

    while Deques.Length(queue) != 0
      invariant Measuring(g, s, queue.items, visited, expanded)
      decreases |Cells(g) - visited|, |queue.items|
    {
      ghost var visited0 := visited;
      ghost var queue0 := queue;
      var (head, rest) := Deques.PopLeft(queue);
      var u := head.value.pos;
      var du := head.value.distance;
      queue := rest;
      if GoalAt(g, u) {
        MeasureGoal(g, s, queue0.items, visited, expanded);
        return du;
      }
      MeasureStart(g, s, queue0.items, visited, expanded);
      visited, queue := RelaxNeighbors(g, u, du, visited, queue, s, expanded);
      expanded := expanded + {u};
      if visited != visited0 {
        DifferenceShrinks(Cells(g), visited0, visited);
      }
    }

    MeasureExhausted(g, s, visited, expanded);
    return -1;
  }
}
