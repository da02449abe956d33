/**
 * The maze carver of src/mazeGenerator.js.
 *
 * The carver starts from a grid in which exactly the cells with two even
 * coordinates are open, picks a random open start cell and carves
 * depth-first: from a cell it jumps two cells in a random direction and,
 * when the jump succeeds, knocks down the wall between. Every walk has a
 * length budget; the first successful branch inherits the budget less one
 * and every later branch draws a fresh budget.
 *
 * `Math.random()` is an oracle: a function from the number of the draw to
 * a real in [0, 1), consumed in the order the source draws.
 */
module MazeGenerator {
  import opened Wrappers
  import opened Grids

  /** A value of `Math.random()`. */
  type Unit = x: real | 0.0 <= x < 1.0

  /** The sequence of values `Math.random()` returns, by the number of the call. */
  type Random = nat -> Unit

  /**
   * `#randInt` (mazeGenerator.js:88-92) for integral bounds: the floor of
   * x * (max - min) + min. For min < max that is in [min, max); an empty
   * range yields min, and a reversed one yields a value between max and min.
   */
  function RandInt(min: int, max: int, x: Unit): (r: int)
    ensures min < max ==> min <= r < max
    ensures min == max ==> r == min
    ensures max < min ==> max <= r <= min
  {
    var d := (max - min) as real;
    Scale(x, d);
    (x * d + min as real).Floor
  }

  /** A fraction in [0, 1) of d lies between 0 and d, short of d. */
  lemma Scale(x: real, d: real)
    requires 0.0 <= x < 1.0
    ensures 0.0 < d ==> 0.0 <= x * d < d
    ensures d < 0.0 ==> d < x * d <= 0.0
  {
    if 0.0 < d {
      assert x * d < 1.0 * d;
    } else if d < 0.0 {
      assert x * (-d) < 1.0 * (-d);
    }
  }

  /**
   * The starting grid as a value: `height` rows of `width` cells, a cell
   * open exactly when both coordinates are even.
   */
  function LatticeGrid(height: nat, width: nat): (g: Grid)
    ensures |g| == height && forall r | 0 <= r < height :: |g[r]| == width
  {
    seq(height, r => LatticeRow(r, width))
  }

  /** Row r of the starting grid. */
  function LatticeRow(r: int, width: nat): (row: seq<Symbol>)
    ensures |row| == width
  {
    seq(width, c => if r % 2 == 0 && c % 2 == 0 then Empty else Wall)
  }

  /** Both coordinates even: the cells carving moves between. */
  predicate Lattice(q: Position) {
    q.0 % 2 == 0 && q.1 % 2 == 0
  }

  /** Exactly one coordinate odd: the walls between two lattice cells. */
  predicate Between(q: Position) {
    (q.0 % 2 == 0) != (q.1 % 2 == 0)
  }

  lemma LatticeGridCells(height: nat, width: nat)
    ensures var g := LatticeGrid(height, width);
      && IsGrid(g) && (height > 0 ==> Width(g) == width)
      && forall q | InBounds(g, q) :: At(g, q) == (if Lattice(q) then Empty else Wall)
  {
  }

  /**
   * Cell (row, col) is reached with the row counter at row + 1 and the
   * column counter, never reset between rows, at row * width + col + 1;
   * both are odd exactly when row and col are even.
   */
  lemma CounterParity(row: nat, width: nat, col: nat)
    ensures ((row + 1) % 2 != 0 && (row * width + col + 1) % 2 != 0) == (row % 2 == 0 && col % 2 == 0)
  {
    if row % 2 == 0 {
      assert row * width == 2 * ((row / 2) * width);
    }
  }

  /**
   * `#generateStartingGrid` (mazeGenerator.js:71-86). It counts rows and
   * columns in running counters, and the column counter is never reset
   * between rows; a cell is open when both counters are odd. That is the
   * lattice grid.
   */
  method StartingGrid(height: nat, width: nat) returns (g: Grid)
    ensures g == LatticeGrid(height, width)
  {
    g := [];
    var rowCount, colCount := 0, 0;
    var row := 0;
    while row < height
      invariant 0 <= row <= height && rowCount == row && colCount == row * width
      invariant g == LatticeGrid(row, width)
    {
      rowCount := rowCount + 1;
      var gridRow;
      gridRow, colCount := StartingRow(row, width, rowCount, colCount);
      g := g + [gridRow];
      row := row + 1;
      assert row * width == (row - 1) * width + width;
    }
  }

  /** The inner loop of `#generateStartingGrid` (mazeGenerator.js:77-83): one row, advancing the column counter. */
  method StartingRow(row: nat, width: nat, rowCount: int, colCount: int) returns (gridRow: seq<Symbol>, colCount': int)
    requires rowCount == row + 1 && colCount == row * width
    ensures gridRow == LatticeRow(row, width) && colCount' == colCount + width
  {
    gridRow := [];
    colCount' := colCount;
    var col := 0;
    while col < width
      invariant 0 <= col <= width && colCount' == row * width + col
      invariant gridRow == LatticeRow(row, width)[..col]
    {
      colCount' := colCount' + 1;
      CounterParity(row, width, col);
      var symbol := if rowCount % 2 != 0 && colCount' % 2 != 0 then Empty else Wall;
      gridRow := gridRow + [symbol];
      col := col + 1;
    }
  }

  /** One of the four jumps out of a cell: the cell two steps away and the wall between. */
  datatype Jump = Jump(target: Position, wall: Position)

  /** The jumps out of p in the source's order: up, down, left, right. */
  function Jumps(p: Position): seq<Jump> {
    [ Jump((p.0 - 2, p.1), (p.0 - 1, p.1)), Jump((p.0 + 2, p.1), (p.0 + 1, p.1)),
      Jump((p.0, p.1 - 2), (p.0, p.1 - 1)), Jump((p.0, p.1 + 2), (p.0, p.1 + 1)) ]
  }

  /** A jump's wall is the neighbour of p in some direction, and its target the next cell on in that direction. */
  lemma JumpDirection(p: Position, j: Jump) returns (d: int)
    requires j in Jumps(p)
    ensures 0 <= d < 4 && j.wall == Neighbors(p)[d] && j.target == Neighbors(j.wall)[d]
  {
    d := if j == Jumps(p)[0] then 0 else if j == Jumps(p)[1] then 1
      else if j == Jumps(p)[2] then 2 else 3;
  }

  /** What a call of `#generatePaths` returns and leaves behind. */
  datatype Carving = Carving(ok: bool, grid: Grid, visited: set<Position>, draws: nat)

  /**
   * `#generatePaths` (mazeGenerator.js:33-69): a call fails outside the
   * grid, with a zero budget or on a visited cell; otherwise the cell is
   * marked visited, every jump out of it is tried in random order, and the
   * call succeeds. Draws are taken from `random` from the k-th on.
   */
  function Carve(g: Grid, p: Position, budget: int, visited: set<Position>, random: Random, k: nat): (r: Carving)
    requires IsGrid(g)
    decreases |Box(|g|, Width(g)) - visited|, 0
    ensures IsGrid(r.grid) && |r.grid| == |g| && Width(r.grid) == Width(g)
    ensures visited <= r.visited && r.visited - visited <= Box(|g|, Width(g))
    ensures r.ok ==> InBounds(g, p)
    ensures !r.ok ==> r.grid == g && r.visited == visited && r.draws == k
  {
    if !InBounds(g, p) || budget == 0 || p in visited then
      Carving(false, g, visited, k)
    else
      assert p in Box(|g|, Width(g)) by { assert p == (p.0, p.1); }
      DifferenceShrinks(Box(|g|, Width(g)), visited, visited + {p});
      var r := CarveFrom(g, p, Jumps(p), true, budget, visited + {p}, random, k);
      Carving(true, r.grid, r.visited, r.draws)
  }

  /**
   * The loop over the jumps not yet tried (mazeGenerator.js:55-66): pick
   * one at random; give it the budget less one while no jump has succeeded
   * yet and a fresh budget `randInt(1, height / 2)` after; carve the wall
   * when the jump succeeds; drop the jump from the list.
   */
  function CarveFrom(g: Grid, p: Position, jumps: seq<Jump>, first: bool, budget: int,
                     visited: set<Position>, random: Random, k: nat): (r: Carving)
    requires IsGrid(g) && InBounds(g, p)
    requires forall j | 0 <= j < |jumps| :: jumps[j] in Jumps(p)
    decreases |Box(|g|, Width(g)) - visited|, |jumps| + 1
    ensures IsGrid(r.grid) && |r.grid| == |g| && Width(r.grid) == Width(g)
    ensures visited <= r.visited && r.visited - visited <= Box(|g|, Width(g))
  {
    if |jumps| == 0 then
      Carving(true, g, visited, k)
    else
      var i := RandInt(0, |jumps|, random(k));
      var budget' := if first then budget - 1 else RandInt(1, |g| / 2, random(k + 1));
      var k' := if first then k + 1 else k + 2;
      var jump := jumps[i];
      var sub := Carve(g, jump.target, budget', visited, random, k');
      var g' := if sub.ok then CarveWall(sub.grid, p, jump) else sub.grid;
      SubsetSize(Box(|g|, Width(g)) - sub.visited, Box(|g|, Width(g)) - visited);
      CarveFrom(g', p, jumps[..i] + jumps[i + 1..], first && !sub.ok, budget, sub.visited, random, sub.draws)
  }

  /** The wall of a jump whose target lies in the grid, knocked down. */
  function CarveWall(g: Grid, p: Position, jump: Jump): (r: Grid)
    requires IsGrid(g) && InBounds(g, p) && InBounds(g, jump.target) && jump in Jumps(p)
    ensures IsGrid(r) && |r| == |g| && Width(r) == Width(g) && InBounds(g, jump.wall)
    ensures At(r, jump.wall) == Empty
    ensures forall q | InBounds(g, q) && q != jump.wall :: At(r, q) == At(g, q)
  {
    SetAt(g, jump.wall, Empty)
  }

  /**
   * `generateMaze` (mazeGenerator.js:10-31) with at most `attempts` tries
   * at the start cell: None when the grid has no rows (the source fails
   * reading the width of the missing first row) or no try hit an open
   * cell.
   */
  function GenerateMaze(height: nat, width: nat, random: Random, attempts: nat): (m: Option<Grid>)
    ensures m.Some? ==> height > 0
  {
    match Generation(height, width, random, attempts)
    case None => None
    case Some(run) => Some(run.1.grid)
  }

  /** The start cell `generateMaze` picks and the carving it runs from there. */
  function Generation(height: nat, width: nat, random: Random, attempts: nat): (run: Option<(Position, Carving)>)
    ensures run.Some? ==> height > 0
  {
    var g := LatticeGrid(height, width);
    LatticeGridCells(height, width);
    if height == 0 then None
    else
      match PickStart(g, random, 0, attempts)
      case None => None
      case Some(pick) =>
        var budget := RandInt(1, height / 2, random(pick.1));
        Some((pick.0, Carve(g, pick.0, budget, {}, random, pick.1 + 1)))
  }

  /**
   * The start loop (mazeGenerator.js:17-25): draw a row and a column and
   * retry while they name a wall. A column past the end of a row reads as
   * `undefined`, which is not a wall.
   */
  function PickStart(g: Grid, random: Random, k: nat, attempts: nat): (r: Option<(Position, nat)>)
    requires IsGrid(g) && |g| > 0
    ensures r.Some? ==> 0 <= r.value.0.0 < |g| && SymbolAt(g, r.value.0) != Some(Wall) && r.value.1 > k
    ensures r.Some? && Width(g) > 0 ==> InBounds(g, r.value.0)
    decreases attempts
  {
    if attempts == 0 then None
    else
      var row := RandInt(0, |g|, random(k));
      var col := RandInt(0, Width(g), random(k + 1));
      if SymbolAt(g, (row, col)) == Some(Wall) then PickStart(g, random, k + 2, attempts - 1)
      else Some(((row, col), k + 2))
  }

  /**
   * Only walls between two lattice cells change, and they become open. The
   * first grid is assumed to open every lattice cell.
   */
  ghost predicate Carved(a: Grid, b: Grid)
    requires IsGrid(a) && IsGrid(b)
  {
    && |a| == |b| && Width(a) == Width(b)
    && forall q | InBounds(a, q) && At(b, q) != At(a, q) :: Between(q) && At(b, q) == Empty
  }

  /** Every lattice cell of the grid is open. */
  ghost predicate LatticeOpen(g: Grid)
    requires IsGrid(g)
  {
    forall q | InBounds(g, q) && Lattice(q) :: At(g, q) == Empty
  }

  lemma CarvedTrans(a: Grid, b: Grid, c: Grid)
    requires IsGrid(a) && IsGrid(b) && IsGrid(c) && Carved(a, b) && Carved(b, c)
    ensures Carved(a, c)
  {
  }

  lemma CarvedOpens(a: Grid, b: Grid)
    requires IsGrid(a) && IsGrid(b) && Carved(a, b)
    ensures Opens(a, b)
  {
  }

  /**
   * A successful call on a lattice cell p of a grid whose lattice cells are
   * open only knocks down walls between lattice cells, visits only lattice
   * cells inside the grid, and leaves every cell it visits reachable from p.
   */
  lemma {:induction false} CarveFacts(g: Grid, p: Position, budget: int, visited: set<Position>, random: Random, k: nat)
    requires IsGrid(g) && LatticeOpen(g) && Lattice(p)
    decreases |Box(|g|, Width(g)) - visited|, 0
    ensures var r := Carve(g, p, budget, visited, random, k);
      && (r.ok <==> InBounds(g, p) && budget != 0 && p !in visited)
      && Carved(g, r.grid)
      && (forall q | q in r.visited - visited :: Lattice(q) && InBounds(g, q))
      && (r.ok ==> p in r.visited && forall q | q in r.visited - visited :: Reachable(r.grid, p, q))
  {
    var r := Carve(g, p, budget, visited, random, k);
    if InBounds(g, p) && budget != 0 && p !in visited {
      assert p in Box(|g|, Width(g)) by { assert p == (p.0, p.1); }
      DifferenceShrinks(Box(|g|, Width(g)), visited, visited + {p});
      CarveFromFacts(g, p, Jumps(p), true, budget, visited + {p}, random, k);
      assert WithinSteps(r.grid, p, p, 0);
    }
  }

  /** The jump loop keeps the facts of `CarveFacts` for the cells it visits. */
  lemma {:induction false} CarveFromFacts(g: Grid, p: Position, jumps: seq<Jump>, first: bool, budget: int,
                                          visited: set<Position>, random: Random, k: nat)
    requires IsGrid(g) && InBounds(g, p) && LatticeOpen(g) && Lattice(p)
    requires forall j | 0 <= j < |jumps| :: jumps[j] in Jumps(p)
    decreases |Box(|g|, Width(g)) - visited|, |jumps| + 1
    ensures var r := CarveFrom(g, p, jumps, first, budget, visited, random, k);
      && Carved(g, r.grid)
      && (forall q | q in r.visited - visited :: Lattice(q) && InBounds(g, q))
      && (forall q | q in r.visited - visited :: Reachable(r.grid, p, q))
  {
    if |jumps| > 0 {
      var i := RandInt(0, |jumps|, random(k));
      var budget' := if first then budget - 1 else RandInt(1, |g| / 2, random(k + 1));
      var k' := if first then k + 1 else k + 2;
      var jump := jumps[i];
      var d := JumpDirection(p, jump);
      assert Lattice(jump.target);
      var sub := Carve(g, jump.target, budget', visited, random, k');
      CarveFacts(g, jump.target, budget', visited, random, k');
      var g' := if sub.ok then CarveWall(sub.grid, p, jump) else sub.grid;
      SubsetSize(Box(|g|, Width(g)) - sub.visited, Box(|g|, Width(g)) - visited);
      var rest := jumps[..i] + jumps[i + 1..];
      DropJump(p, jumps, i);
      if sub.ok {
        WallStep(g, sub.grid, p, jump, d, visited, sub.visited);
      }
      CarveFromFacts(g', p, rest, first && !sub.ok, budget, sub.visited, random, sub.draws);
      var r := CarveFrom(g', p, rest, first && !sub.ok, budget, sub.visited, random, sub.draws);
      CarveJoin(g, g', r.grid, p, visited, sub.visited, r.visited);
    }
  }

  /** The jumps left after dropping the i-th are still jumps out of p. */
  lemma DropJump(p: Position, jumps: seq<Jump>, i: int)
    requires 0 <= i < |jumps| && forall j | 0 <= j < |jumps| :: jumps[j] in Jumps(p)
    ensures var rest := jumps[..i] + jumps[i + 1..];
      |rest| == |jumps| - 1 && forall j | 0 <= j < |rest| :: rest[j] in Jumps(p)
  {
    var rest := jumps[..i] + jumps[i + 1..];
    forall j | 0 <= j < |rest|
      ensures rest[j] in Jumps(p)
    {
      if j < i { assert rest[j] == jumps[j]; } else { assert rest[j] == jumps[j + 1]; }
    }
  }

  /** One tried jump followed by the rest of the loop. */
  lemma CarveJoin(g: Grid, g': Grid, h: Grid, p: Position, v0: set<Position>, v1: set<Position>, v2: set<Position>)
    requires IsGrid(g) && IsGrid(g') && IsGrid(h) && v0 <= v1 <= v2
    requires Carved(g, g') && Carved(g', h)
    requires forall q | q in v1 - v0 :: Lattice(q) && InBounds(g, q) && Reachable(g', p, q)
    requires forall q | q in v2 - v1 :: Lattice(q) && InBounds(g', q) && Reachable(h, p, q)
    ensures Carved(g, h)
    ensures forall q | q in v2 - v0 :: Lattice(q) && InBounds(g, q)
    ensures forall q | q in v2 - v0 :: Reachable(h, p, q)
  {
    CarvedTrans(g, g', h);
    CarvedOpens(g', h);
    forall q | q in v2 - v0
      ensures Lattice(q) && InBounds(g, q)
    {
      if q !in v1 {
        assert q in v2 - v1;
      }
    }
    forall q | q in v1 - v0
      ensures Reachable(h, p, q)
    {
      var n: nat :| WithinSteps(g', p, q, n);
      WithinOpens(g', h, p, q, n);
    }
  }

  /**
   * Knocking down the wall of a successful jump: the carving stays within
   * the rules, lattice cells stay open, and every cell the jump visited is
   * reachable from p.
   */
  lemma WallStep(g: Grid, s: Grid, p: Position, jump: Jump, d: int, visited: set<Position>, v: set<Position>)
    requires IsGrid(g) && IsGrid(s) && InBounds(g, p) && LatticeOpen(g) && Lattice(p)
    requires jump in Jumps(p) && 0 <= d < 4 && jump.wall == Neighbors(p)[d] && jump.target == Neighbors(jump.wall)[d]
    requires Carved(g, s) && InBounds(g, jump.target) && jump.target in v
    requires forall q | q in v - visited :: Reachable(s, jump.target, q)
    requires jump.target !in visited
    ensures var g' := CarveWall(s, p, jump);
      && Carved(g, g') && LatticeOpen(g')
      && forall q | q in v - visited :: Reachable(g', p, q)
  {
    var g' := CarveWall(s, p, jump);
    var n := jump.target;
    assert Lattice(n);
    assert Between(jump.wall);
    assert Carved(s, g');
    CarvedTrans(g, s, g');
    CarvedOpens(s, g');
    assert WithinSteps(g', p, p, 0);
    WithinNext(g', p, p, d, 0);
    WithinNext(g', p, jump.wall, d, 1);
    forall q | q in v - visited
      ensures Reachable(g', p, q)
    {
      var m: nat :| WithinSteps(s, n, q, m);
      WithinOpens(s, g', n, q, m);
      WithinTrans(g', p, n, q, 2, m);
    }
  }

  /**
   * A budget of one visits the cell and carves nothing: every jump gets the
   * budget less one, zero, fails, and so leaves the next jump the same
   * budget.
   */
  lemma {:induction false} BudgetOneCarvesNothing(g: Grid, p: Position, jumps: seq<Jump>,
                                                  visited: set<Position>, random: Random, k: nat)
    requires IsGrid(g) && InBounds(g, p)
    requires forall j | 0 <= j < |jumps| :: jumps[j] in Jumps(p)
    decreases |jumps|
    ensures var r := CarveFrom(g, p, jumps, true, 1, visited, random, k);
      r.grid == g && r.visited == visited
  {
    if |jumps| > 0 {
      var i := RandInt(0, |jumps|, random(k));
      var rest := jumps[..i] + jumps[i + 1..];
      DropJump(p, jumps, i);
      BudgetOneCarvesNothing(g, p, rest, visited, random, k + 1);
    }
  }

  /** A call with budget one changes no cell and visits only its own cell. */
  lemma CarveBudgetOne(g: Grid, p: Position, visited: set<Position>, random: Random, k: nat)
    requires IsGrid(g)
    ensures var r := Carve(g, p, 1, visited, random, k);
      r.grid == g && r.visited <= visited + {p}
  {
    if InBounds(g, p) && p !in visited {
      BudgetOneCarvesNothing(g, p, Jumps(p), visited + {p}, random, k);
    }
  }

  /**
   * A generated maze has the requested shape; every lattice cell is open,
   * every cell with two odd coordinates is a wall, every other cell is a
   * wall or open; and every cell the carving visited is reachable from the
   * start cell.
   */
  lemma GenerationFacts(height: nat, width: nat, random: Random, attempts: nat)
    ensures var run := Generation(height, width, random, attempts);
      run.Some? ==>
        var m := run.value.1.grid;
        && IsGrid(m) && |m| == height && Width(m) == width
        && (forall q | InBounds(m, q) && Lattice(q) :: At(m, q) == Empty)
        && (forall q | InBounds(m, q) && !Lattice(q) && !Between(q) :: At(m, q) == Wall)
        && (forall q | InBounds(m, q) :: At(m, q) == Empty || At(m, q) == Wall)
        && (forall q | q in run.value.1.visited :: Lattice(q) && Reachable(m, run.value.0, q))
  {
    var g := LatticeGrid(height, width);
    LatticeGridCells(height, width);
    var run := Generation(height, width, random, attempts);
    if run.Some? {
      var pick := PickStart(g, random, 0, attempts).value;
      var s := pick.0;
      var budget := RandInt(1, height / 2, random(pick.1));
      if width > 0 {
        assert Lattice(s);
        CarveFacts(g, s, budget, {}, random, pick.1 + 1);
      } else {
        assert !InBounds(g, s);
        assert run.value.1.grid == g && run.value.1.visited == {};
      }
    }
  }
}
