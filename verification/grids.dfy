/**
 * The grid vocabulary shared by every component of the maze visualiser:
 * cell symbols, (row, col) positions, rectangular grids, the fixed
 * up/down/left/right neighbour order, and the reference notion of
 * reachability ("within k moves through open cells") against which the
 * searches are proved.
 */
module Grids {
  import opened Wrappers

  /** The board symbols "O", "W", "S", "G" and the two display-only markers
      "visited" and "path" that the playback paints. */
  datatype Symbol = Empty | Wall | Start | Goal | Visited | Path

  /** (row, col), 0-indexed. The source keys positions as JSON.stringify([row, col]). */
  type Position = (int, int)

  type Grid = seq<seq<Symbol>>

  /** The source reads the width as grid[0].length. */
  function Width(g: Grid): nat {
    if |g| == 0 then 0 else |g[0]|
  }

  /** Every row as long as the first one. */
  predicate IsGrid(g: Grid) {
    forall r | 0 <= r < |g| :: |g[r]| == Width(g)
  }

  predicate InBounds(g: Grid, p: Position) {
    0 <= p.0 < |g| && 0 <= p.1 < Width(g)
  }

  function At(g: Grid, p: Position): Symbol
    requires IsGrid(g) && InBounds(g, p)
  {
    g[p.0][p.1]
  }

  /** What `grid[row][col]` yields for a row inside the grid: the symbol, or
      `undefined` (None) when the column is outside it. */
  function SymbolAt(g: Grid, p: Position): Option<Symbol>
    requires IsGrid(g)
  {
    if InBounds(g, p) then Some(At(g, p)) else None
  }

  /** A cell a search may step onto: inside the grid and not a wall. */
  predicate Open(g: Grid, p: Position)
    requires IsGrid(g)
  {
    InBounds(g, p) && At(g, p) != Wall
  }

  predicate GoalAt(g: Grid, p: Position)
    requires IsGrid(g)
  {
    InBounds(g, p) && At(g, p) == Goal
  }

  /** Same shape: same number of rows, every row of the same length. */
  predicate SameShape(a: Grid, b: Grid) {
    |a| == |b| && forall r | 0 <= r < |a| :: |a[r]| == |b[r]|
  }

  /** The grid with one in-bounds cell overwritten. */
  function SetAt(g: Grid, p: Position, s: Symbol): (r: Grid)
    requires IsGrid(g) && InBounds(g, p)
    ensures IsGrid(r) && SameShape(r, g) && Width(r) == Width(g)
    ensures At(r, p) == s
    ensures forall q | InBounds(g, q) && q != p :: At(r, q) == At(g, q)
  {
    g[p.0 := g[p.0][p.1 := s]]
  }

  /** The four neighbours in the fixed order of every search: up, down, left, right. */
  function Neighbors(p: Position): seq<Position> {
    [(p.0 - 1, p.1), (p.0 + 1, p.1), (p.0, p.1 - 1), (p.0, p.1 + 1)]
  }

  /** The direction that leads back: up/down and left/right swap. */
  function Opposite(i: int): int {
    if i == 0 then 1 else if i == 1 then 0 else if i == 2 then 3 else 2
  }

  lemma NeighborBack(p: Position, i: int)
    requires 0 <= i < 4
    ensures 0 <= Opposite(i) < 4
    ensures Neighbors(Neighbors(p)[i])[Opposite(i)] == p
  {
  }

  /** Every in-bounds cell. */
  function Cells(g: Grid): set<Position> {
    set r, c | 0 <= r < |g| && 0 <= c < Width(g) :: (r, c)
  }

  lemma CellsAreInBounds(g: Grid, p: Position)
    ensures p in Cells(g) <==> InBounds(g, p)
  {
    if InBounds(g, p) {
      assert p == (p.0, p.1);
    }
  }

  function Box(h: nat, w: nat): set<Position> {
    set r, c | 0 <= r < h && 0 <= c < w :: (r, c)
  }

  function RowOf(r: int, w: nat): set<Position> {
    set c | 0 <= c < w :: (r, c)
  }

  lemma {:induction false} RowOfSize(r: int, w: nat)
    ensures |RowOf(r, w)| == w
  {
    if w > 0 {
      RowOfSize(r, w - 1);
      assert RowOf(r, w) == RowOf(r, w - 1) + {(r, w - 1)};
      assert (r, w - 1) !in RowOf(r, w - 1);
    } else {
      assert RowOf(r, w) == {};
    }
  }

  lemma {:induction false} BoxSize(h: nat, w: nat)
    ensures |Box(h, w)| == h * w
  {
    if h > 0 {
      BoxSize(h - 1, w);
      RowOfSize(h - 1, w);
      BoxSplit(h, w);
      assert |Box(h, w)| == (h - 1) * w + w;
      MulStep(h, w);
    } else {
      assert Box(h, w) == {};
    }
  }

  lemma BoxSplit(h: nat, w: nat)
    requires h > 0
    ensures Box(h, w) == Box(h - 1, w) + RowOf(h - 1, w)
    ensures Box(h - 1, w) !! RowOf(h - 1, w)
  {
  }

  lemma MulStep(h: int, w: int)
    ensures (h - 1) * w + w == h * w
  {
  }

  /** There are exactly rows × cols cells. */
  lemma CellsCount(g: Grid)
    ensures |Cells(g)| == |g| * Width(g)
  {
    assert Cells(g) == Box(|g|, Width(g));
    BoxSize(|g|, Width(g));
  }

  /** No element occurs twice. */
  predicate Distinct<T(==)>(xs: seq<T>) {
    forall i, j | 0 <= i < j < |xs| :: xs[i] != xs[j]
  }

  function Elements<T>(xs: seq<T>): set<T> {
    set x | x in xs
  }

  lemma {:induction false} DistinctSize<T>(xs: seq<T>)
    requires Distinct(xs)
    ensures |Elements(xs)| == |xs|
  {
    if |xs| > 0 {
      var init := xs[..|xs| - 1];
      assert Distinct(init);
      DistinctSize(init);
      assert Elements(xs) == Elements(init) + {xs[|xs| - 1]};
      assert xs[|xs| - 1] !in Elements(init);
    } else {
      assert Elements(xs) == {};
    }
  }

  lemma DistinctAppend<T>(xs: seq<T>, x: T)
    requires Distinct(xs) && x !in xs
    ensures Distinct(xs + [x])
  {
  }

  lemma ElementsAppend<T>(xs: seq<T>, x: T)
    ensures Elements(xs + [x]) == Elements(xs) + {x}
  {
  }

  /** A distinct sequence drawn from a finite set is no longer than the set. */
  lemma DistinctWithin<T>(xs: seq<T>, s: set<T>)
    requires Distinct(xs)
    requires forall i | 0 <= i < |xs| :: xs[i] in s
    ensures |xs| <= |s|
  {
    DistinctSize(xs);
    forall x | x in Elements(xs)
      ensures x in s
    {
      var i :| 0 <= i < |xs| && xs[i] == x;
    }
    SubsetSize(Elements(xs), s);
  }

  lemma {:induction false} SubsetSize<T>(a: set<T>, b: set<T>)
    requires a <= b
    ensures |a| <= |b|
  {
    if a != {} {
      var x :| x in a;
      SubsetSize(a - {x}, b - {x});
    }
  }

  /** Adding cells of c to a set shrinks what of c is still missing from it. */
  lemma DifferenceShrinks(c: set<Position>, v0: set<Position>, v: set<Position>)
    requires v0 <= v && v - v0 <= c && v != v0
    ensures |c - v| < |c - v0|
  {
    var x :| x in v && x !in v0;
    SubsetSize(c - v, (c - v0) - {x});
  }

  /**
   * Reference reachability. `WithinSteps(g, s, p, k)` holds when p can be
   * reached from s in at most k moves, each move going to one of the four
   * neighbours and landing on an open cell. The start itself need not be
   * open: the searches start wherever they are told to.
   */
  ghost predicate WithinSteps(g: Grid, s: Position, p: Position, k: int)
    requires IsGrid(g)
    decreases k
  {
    if k < 0 then false
    else if k == 0 then p == s
    else WithinSteps(g, s, p, k - 1)
         || (Open(g, p) && exists i | 0 <= i < 4 :: WithinSteps(g, s, Neighbors(p)[i], k - 1))
  }

  ghost predicate Reachable(g: Grid, s: Position, p: Position)
    requires IsGrid(g)
  {
    exists k: nat :: WithinSteps(g, s, p, k)
  }

  lemma {:induction false} WithinMono(g: Grid, s: Position, p: Position, j: int, k: int)
    requires IsGrid(g)
    requires j <= k && WithinSteps(g, s, p, j)
    ensures WithinSteps(g, s, p, k)
    decreases k - j
  {
    if j < k {
      WithinMono(g, s, p, j, k - 1);
    }
  }

  /** One more move onto an open neighbour. */
  lemma WithinNext(g: Grid, s: Position, u: Position, i: int, k: int)
    requires IsGrid(g) && 0 <= i < 4
    requires WithinSteps(g, s, u, k) && Open(g, Neighbors(u)[i])
    ensures WithinSteps(g, s, Neighbors(u)[i], k + 1)
  {
    var n := Neighbors(u)[i];
    NeighborBack(u, i);
    assert WithinSteps(g, s, Neighbors(n)[Opposite(i)], k);
  }

  /** v is exactly l moves from s: within l moves and not within fewer. */
  ghost predicate AtDistance(g: Grid, s: Position, v: Position, l: int)
    requires IsGrid(g)
  {
    WithinSteps(g, s, v, l) && !WithinSteps(g, s, v, l - 1)
  }

  /** A cell within k moves is at a distance of at most k. */
  lemma AtDistanceAtMost(g: Grid, s: Position, v: Position, l: int, k: int)
    requires IsGrid(g) && AtDistance(g, s, v, l) && WithinSteps(g, s, v, k)
    ensures l <= k
  {
    if k < l {
      WithinMono(g, s, v, k, l - 1);
    }
  }

  /** Every open neighbour of a cell of e lies in v. */
  ghost predicate ClosedInto(g: Grid, e: set<Position>, v: set<Position>)
    requires IsGrid(g)
  {
    forall p, i | p in e && 0 <= i < 4 && Open(g, Neighbors(p)[i]) :: Neighbors(p)[i] in v
  }

  /** A set closed under moves onto open neighbours. */
  ghost predicate Closed(g: Grid, e: set<Position>)
    requires IsGrid(g)
  {
    ClosedInto(g, e, e)
  }

  /**
   * The breadth-first frontier argument: when everything within l - 1 moves
   * lies in e and e's open neighbours lie in v, then a cell within l moves is
   * the start itself, or in e, or in v.
   */
  lemma Frontier(g: Grid, s: Position, e: set<Position>, v: set<Position>, l: int, p: Position)
    requires IsGrid(g) && WithinSteps(g, s, p, l)
    requires forall x | WithinSteps(g, s, x, l - 1) :: x in e
    requires ClosedInto(g, e, v)
    ensures p == s || p in e || p in v
  {
    if l > 0 && !WithinSteps(g, s, p, l - 1) {
      var i :| 0 <= i < 4 && WithinSteps(g, s, Neighbors(p)[i], l - 1);
      var w := Neighbors(p)[i];
      NeighborBack(p, i);
      assert Neighbors(w)[Opposite(i)] == p;
    }
  }

  /** Such a set holds every reachable cell. */
  lemma {:induction false} ClosedHoldsWithin(g: Grid, s: Position, e: set<Position>, p: Position, k: int)
    requires IsGrid(g) && s in e && Closed(g, e)
    requires WithinSteps(g, s, p, k)
    ensures p in e
    decreases k
  {
    if k > 0 && !WithinSteps(g, s, p, k - 1) {
      var i :| 0 <= i < 4 && WithinSteps(g, s, Neighbors(p)[i], k - 1);
      var w := Neighbors(p)[i];
      ClosedHoldsWithin(g, s, e, w, k - 1);
      NeighborBack(p, i);
      assert Neighbors(w)[Opposite(i)] == p;
    } else if k > 0 {
      ClosedHoldsWithin(g, s, e, p, k - 1);
    }
  }

  lemma ClosedHoldsReachable(g: Grid, s: Position, e: set<Position>)
    requires IsGrid(g) && s in e && Closed(g, e)
    ensures forall p | Reachable(g, s, p) :: p in e
  {
    forall p | Reachable(g, s, p)
      ensures p in e
    {
      var k: nat :| WithinSteps(g, s, p, k);
      ClosedHoldsWithin(g, s, e, p, k);
    }
  }

  /** A route that moves to a neighbour at every step and only ever lands on open cells. */
  predicate IsWalk(g: Grid, w: seq<Position>)
    requires IsGrid(g)
  {
    |w| > 0 && forall i | 1 <= i < |w| :: Open(g, w[i]) && w[i] in Neighbors(w[i - 1])
  }

  /** A walk with n moves witnesses reachability within n moves. */
  lemma {:induction false} WalkWithin(g: Grid, w: seq<Position>)
    requires IsGrid(g) && IsWalk(g, w)
    ensures WithinSteps(g, w[0], w[|w| - 1], |w| - 1)
  {
    if |w| > 1 {
      var init := w[..|w| - 1];
      assert IsWalk(g, init) by {
        forall i | 1 <= i < |init|
          ensures Open(g, init[i]) && init[i] in Neighbors(init[i - 1])
        {
          assert init[i] == w[i] && init[i - 1] == w[i - 1];
        }
      }
      WalkWithin(g, init);
      var u := w[|w| - 2];
      assert w[|w| - 1] in Neighbors(u);
      var i :| 0 <= i < 4 && Neighbors(u)[i] == w[|w| - 1];
      WithinNext(g, w[0], u, i, |w| - 2);
    }
  }

  /** Joining a route from s to m and one from m to q. */
  lemma {:induction false} WithinTrans(g: Grid, s: Position, m: Position, q: Position, j: int, k: int)
    requires IsGrid(g) && WithinSteps(g, s, m, j) && WithinSteps(g, m, q, k)
    ensures WithinSteps(g, s, q, j + k)
    decreases k
  {
    if k == 0 {
      assert q == m;
    } else if WithinSteps(g, m, q, k - 1) {
      WithinTrans(g, s, m, q, j, k - 1);
      WithinMono(g, s, q, j + k - 1, j + k);
    } else {
      var i :| 0 <= i < 4 && WithinSteps(g, m, Neighbors(q)[i], k - 1);
      WithinTrans(g, s, m, Neighbors(q)[i], j, k - 1);
      assert j >= 0;
    }
  }

  /** The second grid has the first one's shape and at least its open cells. */
  ghost predicate Opens(a: Grid, b: Grid) {
    && IsGrid(a) && IsGrid(b) && |a| == |b| && Width(a) == Width(b)
    && forall q | Open(a, q) :: Open(b, q)
  }

  /** Opening cells keeps every route. */
  lemma {:induction false} WithinOpens(a: Grid, b: Grid, s: Position, q: Position, k: int)
    requires Opens(a, b) && WithinSteps(a, s, q, k)
    ensures WithinSteps(b, s, q, k)
    decreases k
  {
    if k > 0 {
      if WithinSteps(a, s, q, k - 1) {
        WithinOpens(a, b, s, q, k - 1);
      } else {
        var i :| 0 <= i < 4 && WithinSteps(a, s, Neighbors(q)[i], k - 1);
        WithinOpens(a, b, s, Neighbors(q)[i], k - 1);
      }
    }
  }
}
