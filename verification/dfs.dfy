/**
 * The two depth-first searches of src/searchAlgorithms/depthFirstSearch.js.
 *
 * `DfsPath` lists the cells in the order the recursive search enters them,
 * dead ends included, stopping at the first goal. `ShortestPath` is the
 * memoised search that returns a route from the start to a goal.
 *
 * The source shares one mutable visited set (and one memo) between all
 * recursive calls; here they are threaded through the calls as values.
 */
module DepthFirst {
  import opened Grids
  import Deques

  /** What the recursive `#dsfPath` leaves behind: whether it reached a goal, the visited set and the path. */
  datatype Walk = Walk(found: bool, visited: set<Position>, path: seq<Position>)

  lemma PrefixTrans<T>(a: seq<T>, b: seq<T>, c: seq<T>)
    requires |a| <= |b| <= |c| && b[..|a|] == a && c[..|b|] == b
    ensures c[..|a|] == a
  {
    assert c[..|a|] == c[..|b|][..|a|];
  }

  /**
   * `#dsfPath` (depthFirstSearch.js:68-101): nothing happens outside the
   * grid, on a visited cell or on a wall; otherwise the cell is appended to
   * the path, and the search stops there if it is a goal (without marking
   * it visited) or marks it visited and tries the neighbours up, down, left,
   * right until one call succeeds.
   */
  function Descend(g: Grid, p: Position, visited: set<Position>, path: seq<Position>): (r: Walk)
    requires IsGrid(g)
    decreases |Cells(g) - visited|, 0
    ensures visited <= r.visited && r.visited - visited <= Cells(g)
    ensures |path| <= |r.path| && r.path[..|path|] == path
    ensures |r.path| > |path| <==> Open(g, p) && p !in visited
    ensures |r.path| > |path| ==> r.path[|path|] == p
    ensures r.found ==> |r.path| > |path| && GoalAt(g, r.path[|r.path| - 1])
  {
    if !InBounds(g, p) || p in visited || At(g, p) == Wall then
      Walk(false, visited, path)
    else if At(g, p) == Goal then
      Walk(true, visited, path + [p])
    else
      CellsAreInBounds(g, p);
      DifferenceShrinks(Cells(g), visited, visited + {p});
      var r := DescendFrom(g, p, 0, visited + {p}, path + [p]);
      PrefixTrans(path, path + [p], r.path);
      assert r.path[|path|] == r.path[..|path| + 1][|path|];
      r
  }

  /**
   * The loop over the neighbours of u (depthFirstSearch.js:93-98), from the
   * i-th on: the first call that reaches a goal ends it.
   */
  function DescendFrom(g: Grid, u: Position, i: nat, visited: set<Position>, path: seq<Position>): (r: Walk)
    requires IsGrid(g) && i <= 4
    decreases |Cells(g) - visited|, 5 - i
    ensures visited <= r.visited && r.visited - visited <= Cells(g)
    ensures |path| <= |r.path| && r.path[..|path|] == path
    ensures r.found ==> |r.path| > |path| && GoalAt(g, r.path[|r.path| - 1])
  {
    if i == 4 then
      Walk(false, visited, path)
    else
      var first := Descend(g, Neighbors(u)[i], visited, path);
      if first.found then
        first
      else
        SubsetSize(Cells(g) - first.visited, Cells(g) - visited);
        var rest := DescendFrom(g, u, i + 1, first.visited, first.path);
        PrefixTrans(path, first.path, rest.path);
        rest
  }

  /**
   * What a call leaves behind beyond the path it was given: the cells it
   * appended are open, distinct and were not visited; none but the last is a
   * goal; and when no goal was reached, exactly the appended cells were
   * marked visited and every open neighbour of those cells is visited.
   */
  ghost predicate Explored(g: Grid, visited: set<Position>, path: seq<Position>, r: Walk)
    requires IsGrid(g) && |path| <= |r.path|
  {
    && (forall i | |path| <= i < |r.path| :: Open(g, r.path[i]) && r.path[i] !in visited)
    && (forall i, j | |path| <= i < j < |r.path| :: r.path[i] != r.path[j])
    && (forall i | |path| <= i < |r.path| - 1 :: !GoalAt(g, r.path[i]))
    && (!r.found ==> forall i | |path| <= i < |r.path| :: !GoalAt(g, r.path[i]))
    && (!r.found ==> r.visited == visited + Elements(r.path[|path|..]))
    && (!r.found ==> ClosedInto(g, r.visited - visited, r.visited))
  }

  /**
   * parent[i] names, for every cell from index `from` on, an earlier cell
   * from `from` on that it neighbours, or -1 when it neighbours u: the cells
   * entered form a search tree hanging below u.
   */
  ghost predicate Parented(xs: seq<Position>, from: int, u: Position, parent: seq<int>) {
    && |parent| == |xs|
    && forall i | 0 <= from <= i < |xs| :: HangsBelow(xs, from, u, parent, i)
  }

  /** The i-th cell neighbours u (parent -1) or the earlier cell its parent names. */
  ghost predicate HangsBelow(xs: seq<Position>, from: int, u: Position, parent: seq<int>, i: int)
    requires 0 <= i < |xs| && |parent| == |xs|
  {
    || (parent[i] == -1 && xs[i] in Neighbors(u))
    || (0 <= from <= parent[i] < i && xs[i] in Neighbors(xs[parent[i]]))
  }

  /** The facts `Descend` leaves behind, proved along its recursion. */
  lemma {:induction false} DescendFacts(g: Grid, p: Position, visited: set<Position>, path: seq<Position>)
    returns (parent: seq<int>)
    requires IsGrid(g)
    decreases |Cells(g) - visited|, 1
    ensures var r := Descend(g, p, visited, path);
      && Explored(g, visited, path, r)
      && (|r.path| > |path| ==> Parented(r.path, |path| + 1, p, parent))
      && (!r.found && Open(g, p) ==> p in r.visited)
  {
    var r := Descend(g, p, visited, path);
    if !InBounds(g, p) || p in visited || At(g, p) == Wall {
      assert r == Walk(false, visited, path);
      ExploredNothing(g, visited, path);
      parent := seq(|path|, k => -1);
    } else if At(g, p) == Goal {
      assert r == Walk(true, visited, path + [p]);
      ExploredGoal(g, p, visited, path);
      parent := seq(|path| + 1, k => -1);
    } else {
      parent := DescendOpenFacts(g, p, visited, path);
    }
  }

  /** `DescendFacts` on an open, unvisited cell that is no goal: the neighbour loop below it. */
  lemma {:induction false} DescendOpenFacts(g: Grid, p: Position, visited: set<Position>, path: seq<Position>)
    returns (parent: seq<int>)
    requires IsGrid(g) && Open(g, p) && p !in visited && !GoalAt(g, p)
    decreases |Cells(g) - visited|, 0
    ensures var r := Descend(g, p, visited, path);
      && Explored(g, visited, path, r)
      && Parented(r.path, |path| + 1, p, parent)
      && (!r.found ==> p in r.visited)
  {
    CellsAreInBounds(g, p);
    DifferenceShrinks(Cells(g), visited, visited + {p});
    var r := DescendFrom(g, p, 0, visited + {p}, path + [p]);
    assert Descend(g, p, visited, path) == r;
    parent := DescendFromFacts(g, p, 0, visited + {p}, path + [p]);
    DescendStep(g, p, visited, path, r);
  }

  /** A call that appends nothing explores nothing. */
  lemma ExploredNothing(g: Grid, visited: set<Position>, path: seq<Position>)
    requires IsGrid(g)
    ensures Explored(g, visited, path, Walk(false, visited, path))
  {
    assert path[|path|..] == [];
  }

  /** A call that stops on a goal explores just that cell. */
  lemma ExploredGoal(g: Grid, p: Position, visited: set<Position>, path: seq<Position>)
    requires IsGrid(g) && GoalAt(g, p) && p !in visited
    ensures Explored(g, visited, path, Walk(true, visited, path + [p]))
  {
  }

  /** Explored below p, given what the neighbour loop explored. */
  lemma DescendStep(g: Grid, p: Position, visited: set<Position>, path: seq<Position>, r: Walk)
    requires IsGrid(g) && Open(g, p) && p !in visited && !GoalAt(g, p)
    requires |path| + 1 <= |r.path| && r.path[..|path| + 1] == path + [p]
    requires visited + {p} <= r.visited
    requires Explored(g, visited + {p}, path + [p], r)
    requires !r.found ==> forall j | 0 <= j < 4 && Open(g, Neighbors(p)[j]) :: Neighbors(p)[j] in r.visited
    ensures Explored(g, visited, path, r)
    ensures !r.found ==> p in r.visited
  {
    var n := |path|;
    assert r.path[n] == (r.path[..n + 1])[n];
    StepCells(g, p, visited, path, r);
    if !r.found {
      StepClosed(g, p, visited, path, r);
    }
  }

  /** The cells part of `DescendStep`: p heads the new cells, so they stay open, new, distinct and goal-free. */
  lemma StepCells(g: Grid, p: Position, visited: set<Position>, path: seq<Position>, r: Walk)
    requires IsGrid(g) && Open(g, p) && p !in visited && !GoalAt(g, p)
    requires |path| + 1 <= |r.path| && r.path[|path|] == p
    requires Explored(g, visited + {p}, path + [p], r)
    ensures forall i | |path| <= i < |r.path| :: Open(g, r.path[i]) && r.path[i] !in visited
    ensures forall i, j | |path| <= i < j < |r.path| :: r.path[i] != r.path[j]
    ensures forall i | |path| <= i < |r.path| :: !GoalAt(g, r.path[i]) || (r.found && i == |r.path| - 1)
  {
    var n := |path|;
    assert |path + [p]| == n + 1;
    forall i, j | n <= i < j < |r.path|
      ensures r.path[i] != r.path[j]
    {
      if i == n {
        assert r.path[j] !in visited + {p};
      }
    }
  }

  /** The visited part of `DescendStep`: p and the cells below it are all visited, closed under open neighbours. */
  lemma StepClosed(g: Grid, p: Position, visited: set<Position>, path: seq<Position>, r: Walk)
    requires IsGrid(g) && p !in visited && !r.found
    requires |path| + 1 <= |r.path| && r.path[|path|] == p
    requires Explored(g, visited + {p}, path + [p], r)
    requires forall j | 0 <= j < 4 && Open(g, Neighbors(p)[j]) :: Neighbors(p)[j] in r.visited
    ensures r.visited == visited + Elements(r.path[|path|..])
    ensures ClosedInto(g, r.visited - visited, r.visited)
    ensures p in r.visited
  {
    var n := |path|;
    assert |path + [p]| == n + 1;
    assert r.path[n..] == [p] + r.path[n + 1..];
    assert Elements(r.path[n..]) == {p} + Elements(r.path[n + 1..]);
    forall x, j | x in r.visited - visited && 0 <= j < 4 && Open(g, Neighbors(x)[j])
      ensures Neighbors(x)[j] in r.visited
    {
      if x != p {
        assert x in r.visited - (visited + {p});
      }
    }
  }

  /** The facts `DescendFrom` leaves behind, proved along its recursion. */
  lemma {:induction false} DescendFromFacts(g: Grid, u: Position, i: nat, visited: set<Position>, path: seq<Position>)
    returns (parent: seq<int>)
    requires IsGrid(g) && i <= 4
    decreases |Cells(g) - visited|, 5 - i
    ensures var r := DescendFrom(g, u, i, visited, path);
      && Explored(g, visited, path, r)
      && Parented(r.path, |path|, u, parent)
      && (!r.found ==> NeighborsVisited(g, u, i, r.visited))
  {
    if i == 4 {
      parent := seq(|path|, k => -1);
    } else {
      var n := Neighbors(u)[i];
      var first := Descend(g, n, visited, path);
      var pf := DescendFacts(g, n, visited, path);
      var lifted := Lift(pf, |path|, |first.path|);
      LiftParents(first.path, |path|, u, n, pf);
      if first.found {
        parent := lifted;
      } else {
        SubsetSize(Cells(g) - first.visited, Cells(g) - visited);
        var pr := DescendFromFacts(g, u, i + 1, first.visited, first.path);
        var rest := DescendFrom(g, u, i + 1, first.visited, first.path);
        parent := JoinStep(g, u, i, visited, path, first, lifted, rest, pr);
      }
    }
  }

  /** What the i-th neighbour's call and the loop over the later ones leave behind, joined. */
  lemma JoinStep(g: Grid, u: Position, i: int, visited: set<Position>, path: seq<Position>,
                 first: Walk, lifted: seq<int>, rest: Walk, pr: seq<int>)
    returns (parent: seq<int>)
    requires IsGrid(g) && 0 <= i < 4 && !first.found
    requires visited <= first.visited && first.visited <= rest.visited
    requires |path| <= |first.path| && first.path[..|path|] == path
    requires |first.path| <= |rest.path| && rest.path[..|first.path|] == first.path
    requires Explored(g, visited, path, first) && Parented(first.path, |path|, u, lifted)
    requires Open(g, Neighbors(u)[i]) ==> Neighbors(u)[i] in first.visited
    requires Explored(g, first.visited, first.path, rest) && Parented(rest.path, |first.path|, u, pr)
    requires !rest.found ==> NeighborsVisited(g, u, i + 1, rest.visited)
    ensures Explored(g, visited, path, rest) && Parented(rest.path, |path|, u, parent)
    ensures !rest.found ==> NeighborsVisited(g, u, i, rest.visited)
  {
    parent := lifted + pr[|first.path|..];
    JoinParents(first.path, rest.path, |path|, u, lifted, pr);
    ExploredJoin(g, visited, path, first, rest);
    if !rest.found {
      NeighborsJoin(g, u, i, first.visited, rest.visited);
    }
  }

  /** Every open neighbour of u, from the i-th on, is in v. */
  ghost predicate NeighborsVisited(g: Grid, u: Position, i: int, v: set<Position>)
    requires IsGrid(g)
  {
    forall j | 0 <= j < 4 && i <= j && Open(g, Neighbors(u)[j]) :: Neighbors(u)[j] in v
  }

  lemma NeighborsJoin(g: Grid, u: Position, i: int, v: set<Position>, w: set<Position>)
    requires IsGrid(g) && 0 <= i < 4 && v <= w
    requires Open(g, Neighbors(u)[i]) ==> Neighbors(u)[i] in v
    requires NeighborsVisited(g, u, i + 1, w)
    ensures NeighborsVisited(g, u, i, w)
  {
  }

  /** The parents found below n = xs[a], with n itself hung below its own parent (index -1) and n's children below index a. */
  function Lift(pf: seq<int>, a: int, b: int): (lifted: seq<int>)
    requires 0 <= a && (b <= a || |pf| == b)
    ensures |lifted| == if b < 0 then 0 else b
  {
    seq(if b < 0 then 0 else b, k requires 0 <= k < b =>
      if k <= a then -1 else if pf[k] == -1 then a else pf[k])
  }

  /** The tree below the i-th neighbour n of u, re-hung below u. */
  lemma LiftParents(xs: seq<Position>, a: int, u: Position, n: Position, pf: seq<int>)
    requires 0 <= a <= |xs| && n in Neighbors(u)
    requires |xs| > a ==> xs[a] == n && Parented(xs, a + 1, n, pf)
    ensures |xs| > a ==> |pf| == |xs|
    ensures (|xs| == a || |pf| == |xs|) && Parented(xs, a, u, Lift(pf, a, |xs|))
  {
    if |xs| > a {
      var lifted := Lift(pf, a, |xs|);
      forall k | a <= k < |xs|
        ensures HangsBelow(xs, a, u, lifted, k)
      {
        if k > a {
          assert HangsBelow(xs, a + 1, n, pf, k);
        }
      }
    }
  }

  /** Two trees hanging below u, the second after the first, form one. */
  lemma JoinParents(ys: seq<Position>, xs: seq<Position>, a: int, u: Position, lifted: seq<int>, pr: seq<int>)
    requires 0 <= a <= |ys| <= |xs| && xs[..|ys|] == ys
    requires Parented(ys, a, u, lifted)
    requires Parented(xs, |ys|, u, pr)
    ensures Parented(xs, a, u, lifted + pr[|ys|..])
  {
    var b := |ys|;
    var parent := lifted + pr[b..];
    forall k | a <= k < |xs|
      ensures HangsBelow(xs, a, u, parent, k)
    {
      if k < b {
        assert HangsBelow(ys, a, u, lifted, k);
        assert parent[k] == lifted[k] && xs[k] == ys[k];
        if parent[k] != -1 {
          assert xs[parent[k]] == ys[parent[k]];
        }
      } else {
        assert HangsBelow(xs, b, u, pr, k);
        assert parent[k] == pr[k];
      }
    }
  }

  /** Explored by the call on the i-th neighbour, then by the loop over the later ones. */
  lemma ExploredJoin(g: Grid, visited: set<Position>, path: seq<Position>, first: Walk, rest: Walk)
    requires IsGrid(g) && !first.found
    requires visited <= first.visited && first.visited <= rest.visited
    requires |path| <= |first.path| && first.path[..|path|] == path
    requires |first.path| <= |rest.path| && rest.path[..|first.path|] == first.path
    requires Explored(g, visited, path, first)
    requires Explored(g, first.visited, first.path, rest)
    ensures Explored(g, visited, path, rest)
  {
    var a, b := |path|, |first.path|;
    assert forall k | a <= k < b :: rest.path[k] == first.path[k];
    forall k | a <= k < b
      ensures rest.path[k] in first.visited
    {
      assert first.path[a..][k - a] == first.path[k];
    }
    JoinCells(g, visited, path, first, rest);
    if !rest.found {
      JoinClosed(g, visited, path, first, rest);
    }
  }

  /** The cells part of `ExploredJoin`: the cells of the first walk are visited before the rest begins. */
  lemma JoinCells(g: Grid, visited: set<Position>, path: seq<Position>, first: Walk, rest: Walk)
    requires IsGrid(g) && !first.found && visited <= first.visited
    requires |path| <= |first.path| <= |rest.path|
    requires forall k | |path| <= k < |first.path| :: rest.path[k] == first.path[k] && rest.path[k] in first.visited
    requires Explored(g, visited, path, first)
    requires Explored(g, first.visited, first.path, rest)
    ensures forall i | |path| <= i < |rest.path| :: Open(g, rest.path[i]) && rest.path[i] !in visited
    ensures forall i, j | |path| <= i < j < |rest.path| :: rest.path[i] != rest.path[j]
    ensures forall i | |path| <= i < |rest.path| - 1 :: !GoalAt(g, rest.path[i])
    ensures !rest.found ==> forall i | |path| <= i < |rest.path| :: !GoalAt(g, rest.path[i])
  {
    var a, b := |path|, |first.path|;
    forall i, j | a <= i < j < |rest.path|
      ensures rest.path[i] != rest.path[j]
    {
      if i < b && b <= j {
        assert rest.path[i] in first.visited && rest.path[j] !in first.visited;
      }
    }
  }

  /** The visited part of `ExploredJoin`: the visited cells of both walks together are closed. */
  lemma JoinClosed(g: Grid, visited: set<Position>, path: seq<Position>, first: Walk, rest: Walk)
    requires IsGrid(g) && !first.found && !rest.found
    requires visited <= first.visited && first.visited <= rest.visited
    requires |path| <= |first.path| <= |rest.path| && rest.path[..|first.path|] == first.path
    requires Explored(g, visited, path, first)
    requires Explored(g, first.visited, first.path, rest)
    ensures rest.visited == visited + Elements(rest.path[|path|..])
    ensures ClosedInto(g, rest.visited - visited, rest.visited)
  {
    var a, b := |path|, |first.path|;
    assert rest.path[a..] == first.path[a..] + rest.path[b..];
    ElementsConcat(first.path[a..], rest.path[b..]);
  }

  lemma ElementsConcat<T>(xs: seq<T>, ys: seq<T>)
    ensures Elements(xs + ys) == Elements(xs) + Elements(ys)
  {
  }

  /** `dfsPath` (depthFirstSearch.js:61-66): the cells `#dsfPath` enters from s with nothing visited. */
  function DfsPath(g: Grid, s: Position): (path: seq<Position>)
    requires IsGrid(g)
    ensures |path| > 0 <==> Open(g, s)
    ensures |path| > 0 ==> path[0] == s
  {
    Descend(g, s, {}, []).path
  }

  /** The path of `dfsPath` lists distinct open cells, and no cell but the last is a goal. */
  lemma DfsPathCells(g: Grid, s: Position)
    requires IsGrid(g)
    ensures var path := DfsPath(g, s);
      && Distinct(path)
      && (forall i | 0 <= i < |path| :: Open(g, path[i]))
      && (forall i | 0 <= i < |path| - 1 :: !GoalAt(g, path[i]))
  {
    var parent := DescendFacts(g, s, {}, []);
  }

  /** Every cell on the path of `dfsPath` after the first neighbours an earlier one: the search only ever steps to a neighbour. */
  lemma DfsPathTree(g: Grid, s: Position)
    requires IsGrid(g)
    ensures var path := DfsPath(g, s);
      forall i | 1 <= i < |path| :: exists j | 0 <= j < i :: path[i] in Neighbors(path[j])
  {
    var xs := DfsPath(g, s);
    var parent := DescendFacts(g, s, {}, []);
    forall i | 1 <= i < |xs|
      ensures exists j | 0 <= j < i :: xs[i] in Neighbors(xs[j])
    {
      assert HangsBelow(xs, 1, xs[0], parent, i);
      var j := if parent[i] == -1 then 0 else parent[i];
      assert xs[i] in Neighbors(xs[j]);
    }
  }

  /** The i-th cell of the path of `dfsPath` is within i moves of s. */
  lemma DfsPathReachable(g: Grid, s: Position)
    requires IsGrid(g)
    ensures var path := DfsPath(g, s);
      forall i | 0 <= i < |path| :: WithinSteps(g, s, path[i], i)
  {
    var xs := DfsPath(g, s);
    var parent := DescendFacts(g, s, {}, []);
    forall i | 0 <= i < |xs|
      ensures WithinSteps(g, s, xs[i], i)
    {
      TreeWithin(g, xs, parent, i);
    }
  }

  /** The path of `dfsPath` ends at a goal exactly when some goal can be reached from s. */
  lemma DfsPathFindsGoal(g: Grid, s: Position)
    requires IsGrid(g)
    ensures var path := DfsPath(g, s);
      |path| > 0 ==> (GoalAt(g, path[|path| - 1]) <==> exists p :: GoalAt(g, p) && Reachable(g, s, p))
  {
    var r := Descend(g, s, {}, []);
    var xs := r.path;
    var parent := DescendFacts(g, s, {}, []);
    if |xs| > 0 {
      if r.found {
        DfsPathReachable(g, s);
        assert xs == DfsPath(g, s);
        assert WithinSteps(g, s, xs[|xs| - 1], |xs| - 1);
      } else {
        assert r.visited - {} == r.visited && xs[0..] == xs;
        ClosedHoldsReachable(g, s, r.visited);
        forall p | GoalAt(g, p) && Reachable(g, s, p)
          ensures false
        {
        }
      }
    }
  }

  /** The direction in which q neighbours p. */
  lemma NeighborIndex(p: Position, q: Position) returns (d: int)
    requires q in Neighbors(p)
    ensures 0 <= d < 4 && Neighbors(p)[d] == q
  {
    d := if q == Neighbors(p)[0] then 0 else if q == Neighbors(p)[1] then 1
      else if q == Neighbors(p)[2] then 2 else 3;
  }

  /** A cell of a search tree over open cells is within as many moves of the root as its index. */
  lemma {:induction false} TreeWithin(g: Grid, xs: seq<Position>, parent: seq<int>, i: int)
    requires IsGrid(g) && 0 <= i < |xs|
    requires forall k | 0 <= k < |xs| :: Open(g, xs[k])
    requires Parented(xs, 1, xs[0], parent)
    ensures WithinSteps(g, xs[0], xs[i], i)
    decreases i
  {
    if i > 0 {
      assert HangsBelow(xs, 1, xs[0], parent, i);
      var j := if parent[i] == -1 then 0 else parent[i];
      TreeWithin(g, xs, parent, j);
      WithinMono(g, xs[0], xs[j], j, i - 1);
      var d := NeighborIndex(xs[j], xs[i]);
      WithinNext(g, xs[0], xs[j], d, i - 1);
    }
  }

  /** What the memoised search returns for a cell, and the memo it leaves behind. */
  datatype Search = Search(path: seq<Position>, memo: map<Position, seq<Position>>)

  /**
   * A route to q, listed from the goal back to q as the source builds it:
   * it starts at a goal, every cell is open, each cell neighbours the one
   * after it, no cell after the first is a goal, and it ends at q.
   */
  ghost predicate Route(g: Grid, xs: seq<Position>, q: Position)
    requires IsGrid(g)
  {
    && |xs| > 0 && GoalAt(g, xs[0]) && xs[|xs| - 1] == q
    && (forall k | 0 <= k < |xs| :: Open(g, xs[k]))
    && (forall k | 0 < k < |xs| :: !GoalAt(g, xs[k]))
    && (forall k | 0 <= k < |xs| - 1 :: xs[k] in Neighbors(xs[k + 1]))
  }

  /** Every memo entry is empty or a route to its key; only open cells that are not goals are keys. */
  ghost predicate MemoSound(g: Grid, memo: map<Position, seq<Position>>)
    requires IsGrid(g)
  {
    forall q | q in memo :: Open(g, q) && !GoalAt(g, q) && (memo[q] == [] || Route(g, memo[q], q))
  }

  /** The second memo keeps every entry of the first unchanged. */
  ghost predicate Keeps(memo: map<Position, seq<Position>>, memo': map<Position, seq<Position>>) {
    forall q | q in memo :: q in memo' && memo'[q] == memo[q]
  }

  /**
   * `#findShortestPath` (depthFirstSearch.js:15-59): nothing outside the
   * grid or on a visited cell; a memoised cell returns its entry; a wall
   * returns nothing and a goal itself; any other cell is blocked while its
   * neighbours are tried, the best of their routes is extended by the cell,
   * and the result is memoised.
   */
  function Shortest(g: Grid, p: Position, visited: set<Position>, memo: map<Position, seq<Position>>): (r: Search)
    requires IsGrid(g)
    decreases |Cells(g) - visited|, 0
    ensures InBounds(g, p) && p !in visited && p in memo ==> r == Search(memo[p], memo)
    ensures Keeps(memo, r.memo)
    ensures p !in memo ==> r.path == [] || r.path[|r.path| - 1] == p
    ensures Open(g, p) && !GoalAt(g, p) && p !in visited ==> p in r.memo && r.memo[p] == r.path
  {
    if !InBounds(g, p) || p in visited then
      Search([], memo)
    else if p in memo then
      Search(memo[p], memo)
    else if At(g, p) == Wall then
      Search([], memo)
    else if At(g, p) == Goal then
      Search([p], memo)
    else
      CellsAreInBounds(g, p);
      DifferenceShrinks(Cells(g), visited, visited + {p});
      var r := ShortestFrom(g, p, 0, visited + {p}, memo, []);
      var best := if |r.path| > 0 then r.path + [p] else [];
      Search(best, r.memo[p := best])
  }

  /**
   * The loop over the neighbours of u (depthFirstSearch.js:44-51), from
   * the i-th on, with `best` the best route so far: an empty result is
   * skipped, and a route replaces `best` only when `best` is empty or the
   * route is strictly shorter, so the earlier of two equally long routes
   * wins.
   */
  function ShortestFrom(g: Grid, u: Position, i: nat, visited: set<Position>,
                        memo: map<Position, seq<Position>>, best: seq<Position>): (r: Search)
    requires IsGrid(g) && i <= 4
    decreases |Cells(g) - visited|, 5 - i
    ensures |best| > 0 ==> 0 < |r.path| <= |best|
    ensures |best| > 0 && r.path != best ==> |r.path| < |best|
    ensures r.path == [] ==> best == []
    ensures Keeps(memo, r.memo)
  {
    if i == 4 then
      Search(best, memo)
    else
      var sub := Shortest(g, Neighbors(u)[i], visited, memo);
      var best' := if |sub.path| == 0 then best
        else if |best| == 0 || |sub.path| < |best| then sub.path else best;
      ShortestFrom(g, u, i + 1, visited, sub.memo, best')
  }

  /** A route to a neighbour of u, which u can extend. */
  ghost predicate RouteBelow(g: Grid, xs: seq<Position>, u: Position)
    requires IsGrid(g)
  {
    xs == [] || (Route(g, xs, xs[|xs| - 1]) && xs[|xs| - 1] in Neighbors(u))
  }

  /** A route to a neighbour n of an open cell p that is not a goal, extended by p, is a route to p. */
  lemma RouteExtend(g: Grid, xs: seq<Position>, p: Position)
    requires IsGrid(g) && Open(g, p) && !GoalAt(g, p)
    requires xs != [] && RouteBelow(g, xs, p)
    ensures Route(g, xs + [p], p)
  {
    var ys := xs + [p];
    forall k | 0 <= k < |ys| - 1
      ensures ys[k] in Neighbors(ys[k + 1])
    {
      if k < |xs| - 1 {
        assert ys[k] == xs[k] && ys[k + 1] == xs[k + 1];
      }
    }
  }

  /**
   * The memoised search keeps the memo sound and never overwrites an entry,
   * and what it returns for p is empty or a route to p.
   */
  lemma {:induction false} ShortestFacts(g: Grid, p: Position, visited: set<Position>, memo: map<Position, seq<Position>>)
    requires IsGrid(g) && MemoSound(g, memo)
    decreases |Cells(g) - visited|, 0
    ensures var r := Shortest(g, p, visited, memo);
      && MemoSound(g, r.memo) && Keeps(memo, r.memo)
      && (r.path == [] || Route(g, r.path, p))
  {
    if !InBounds(g, p) || p in visited || p in memo || At(g, p) == Wall {
    } else if At(g, p) == Goal {
      assert Route(g, [p], p);
    } else {
      CellsAreInBounds(g, p);
      DifferenceShrinks(Cells(g), visited, visited + {p});
      ShortestFromFacts(g, p, 0, visited + {p}, memo, []);
      var r := ShortestFrom(g, p, 0, visited + {p}, memo, []);
      var best := if |r.path| > 0 then r.path + [p] else [];
      if best != [] {
        RouteExtend(g, r.path, p);
      }
      MemoStore(g, memo, r.memo, p, best);
    }
  }

  /** Storing a route to p, or nothing, under a fresh key p keeps the memo sound. */
  lemma MemoStore(g: Grid, memo: map<Position, seq<Position>>, memo': map<Position, seq<Position>>,
                  p: Position, best: seq<Position>)
    requires IsGrid(g) && MemoSound(g, memo') && Keeps(memo, memo') && p !in memo
    requires Open(g, p) && !GoalAt(g, p) && (best == [] || Route(g, best, p))
    ensures MemoSound(g, memo'[p := best]) && Keeps(memo, memo'[p := best])
  {
  }

  /** The loop over u's neighbours keeps the memo sound and its entries, and keeps `best` a route below u. */
  lemma {:induction false} ShortestFromFacts(g: Grid, u: Position, i: nat, visited: set<Position>,
                                             memo: map<Position, seq<Position>>, best: seq<Position>)
    requires IsGrid(g) && i <= 4 && MemoSound(g, memo) && RouteBelow(g, best, u)
    decreases |Cells(g) - visited|, 5 - i
    ensures var r := ShortestFrom(g, u, i, visited, memo, best);
      && MemoSound(g, r.memo) && Keeps(memo, r.memo) && RouteBelow(g, r.path, u)
  {
    if i < 4 {
      var n := Neighbors(u)[i];
      var sub := Shortest(g, n, visited, memo);
      ShortestFacts(g, n, visited, memo);
      var best' := if |sub.path| == 0 then best
        else if |best| == 0 || |sub.path| < |best| then sub.path else best;
      assert RouteBelow(g, best', u);
      ShortestFromFacts(g, u, i + 1, visited, sub.memo, best');
    }
  }

  /** `shortestPath` (depthFirstSearch.js:7-13): the route found from s, turned round to run from s to the goal. */
  function ShortestPath(g: Grid, s: Position): (path: seq<Position>)
    requires IsGrid(g)
    ensures path != [] ==> path[0] == s
  {
    Deques.Reverse(Shortest(g, s, {}, map[]).path)
  }

  /**
   * The start cell decides the route alone when it is off the grid or a
   * wall (no route) or a goal (the route of that one cell).
   */
  lemma ShortestPathAtStart(g: Grid, s: Position)
    requires IsGrid(g)
    ensures !Open(g, s) ==> ShortestPath(g, s) == []
    ensures GoalAt(g, s) ==> ShortestPath(g, s) == [s]
  {
    if GoalAt(g, s) {
      assert Shortest(g, s, {}, map[]).path == [s];
    }
  }

  /**
   * A non-empty result of `shortestPath` is a walk over open cells from s
   * to a goal that meets no goal before its end, so the goal lies within
   * |path| - 1 moves of s.
   */
  lemma ShortestPathIsRoute(g: Grid, s: Position)
    requires IsGrid(g)
    ensures var path := ShortestPath(g, s);
      path != [] ==>
        && IsWalk(g, path) && Open(g, s) && GoalAt(g, path[|path| - 1])
        && (forall k | 0 <= k < |path| - 1 :: !GoalAt(g, path[k]))
        && WithinSteps(g, s, path[|path| - 1], |path| - 1)
  {
    var xs := Shortest(g, s, {}, map[]).path;
    ShortestFacts(g, s, {}, map[]);
    if xs != [] {
      RouteReversed(g, xs, s);
    }
  }

  /** A route to s, turned round, is a walk from s to its goal. */
  lemma RouteReversed(g: Grid, xs: seq<Position>, s: Position)
    requires IsGrid(g) && Route(g, xs, s)
    ensures var path := Deques.Reverse(xs);
      && IsWalk(g, path) && path[0] == s && Open(g, s) && GoalAt(g, path[|path| - 1])
      && (forall k | 0 <= k < |path| - 1 :: !GoalAt(g, path[k]))
      && WithinSteps(g, s, path[|path| - 1], |path| - 1)
  {
    var path := Deques.Reverse(xs);
    var m := |xs|;
    forall k | 1 <= k < m
      ensures Open(g, path[k]) && path[k] in Neighbors(path[k - 1])
    {
      assert path[k] == xs[m - 1 - k] && path[k - 1] == xs[m - 1 - k + 1];
    }
    forall k | 0 <= k < m - 1
      ensures !GoalAt(g, path[k])
    {
      assert path[k] == xs[m - 1 - k];
    }
    assert path[m - 1] == xs[0] && path[0] == xs[m - 1];
    WalkWithin(g, path);
  }
}
