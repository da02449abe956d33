/**
 * The board state of src/algorithmManger.js: the canonical grid and the
 * recorded start and goal positions, the edits that change them, and the
 * dispatch to the two pairs of searches.
 *
 * The start is kept off the grid: wherever the start symbol is loaded or
 * set, the grid stores an empty cell and the position is recorded.
 */
module Board {
  import opened Wrappers
  import opened Grids
  import BreadthFirst
  import DepthFirst

  datatype Manager = Manager(board: Grid, start: Option<Position>, goal: Option<Position>)

  /** A rectangular board whose recorded positions lie on it. */
  predicate Valid(m: Manager) {
    && IsGrid(m.board)
    && (m.start.Some? ==> InBounds(m.board, m.start.value))
    && (m.goal.Some? ==> InBounds(m.board, m.goal.value))
  }

  /** No cell holds the start symbol. */
  ghost predicate NoStart(g: Grid)
    requires IsGrid(g)
  {
    forall q | InBounds(g, q) :: At(g, q) != Start
  }

  /** `#createBoard` (algorithmManger.js:24-34): `height` rows of `width` empty cells. */
  function CreateBoard(width: nat, height: nat): (g: Grid)
    ensures IsGrid(g) && |g| == height && (height > 0 ==> Width(g) == width)
    ensures forall q | InBounds(g, q) :: At(g, q) == Empty
  {
    seq(height, r => seq(width, c => Empty))
  }

  /** The constructor (algorithmManger.js:7-22): an empty board with start and goal unset. */
  function NewManager(width: nat, height: nat): (m: Manager)
    ensures Valid(m) && m.start.None? && m.goal.None? && |m.board| == height
    ensures forall q | InBounds(m.board, q) :: At(m.board, q) == Empty
  {
    Manager(CreateBoard(width, height), None, None)
  }

  /** `resetBoard` (algorithmManger.js:56-62): every cell empty, the recorded positions untouched. */
  function ResetBoard(m: Manager): (r: Manager)
    requires Valid(m)
    ensures Valid(r) && SameShape(r.board, m.board) && Width(r.board) == Width(m.board)
    ensures forall q | InBounds(r.board, q) :: At(r.board, q) == Empty
    ensures r.start == m.start && r.goal == m.goal
  {
    m.(board := seq(|m.board|, r requires 0 <= r < |m.board| => seq(|m.board[r]|, c => Empty)))
  }

  /** What `setBoard` stores for a loaded symbol: the start becomes an empty cell. */
  function Loaded(s: Symbol): Symbol {
    if s == Start then Empty else s
  }

  /** The loaded grid has a symbol for every cell of the board. */
  predicate Covers(b: Grid, board: Grid) {
    |b| >= |board| && forall r | 0 <= r < |board| :: |b[r]| >= |board[r]|
  }

  /** q comes before (row, col) in row-major order, inside the board. */
  predicate Seen(board: Grid, row: int, col: int, q: Position) {
    InBounds(board, q) && (q.0 < row || (q.0 == row && q.1 < col))
  }

  /** q comes after p in row-major order. */
  predicate After(p: Position, q: Position) {
    p.0 < q.0 || (p.0 == q.0 && p.1 < q.1)
  }

  /**
   * cur is what scanning the cells before (row, col) in row-major order and
   * recording every cell holding `sym` leaves, starting from dflt: the last
   * such cell, or dflt when there is none.
   */
  ghost predicate Latest(b: Grid, board: Grid, row: int, col: int, sym: Symbol, cur: Option<Position>, dflt: Option<Position>)
    requires IsGrid(board) && Covers(b, board)
  {
    || (cur == dflt && forall q | Seen(board, row, col, q) :: b[q.0][q.1] != sym)
    || (&& cur.Some? && Seen(board, row, col, cur.value) && b[cur.value.0][cur.value.1] == sym
        && forall q | Seen(board, row, col, q) && After(cur.value, q) :: b[q.0][q.1] != sym)
  }

  /** The board after loading the cells before (row, col) of b. */
  ghost predicate LoadedUpTo(b: Grid, board: Grid, board': Grid, row: int, col: int)
    requires IsGrid(board) && Covers(b, board)
  {
    && IsGrid(board') && SameShape(board', board) && Width(board') == Width(board)
    && forall q | InBounds(board, q) ::
         At(board', q) == if Seen(board, row, col, q) then Loaded(b[q.0][q.1]) else At(board, q)
  }

  /** The loop state of `setBoard` after the cells before (row, col). */
  ghost predicate Scanned(m: Manager, b: Grid, row: int, col: int, board: Grid, start: Option<Position>, goal: Option<Position>) {
    && Valid(m) && Covers(b, m.board)
    && LoadedUpTo(b, m.board, board, row, col)
    && Latest(b, m.board, row, col, Start, start, m.start)
    && Latest(b, m.board, row, col, Goal, goal, m.goal)
  }

  /**
   * `setBoard` (algorithmManger.js:64-82): copy every cell of b over the
   * board, except that a start cell is stored empty and its position
   * recorded; the position of a goal cell is recorded too. With several
   * start or goal cells the last one in row-major order is recorded; with
   * none, the previous position stays.
   */
  method SetBoard(m: Manager, b: Grid) returns (r: Manager)
    requires Valid(m) && Covers(b, m.board)
    ensures Valid(r) && SameShape(r.board, m.board) && Width(r.board) == Width(m.board)
    ensures forall q | InBounds(m.board, q) :: At(r.board, q) == Loaded(b[q.0][q.1])
    ensures Latest(b, m.board, |m.board|, 0, Start, r.start, m.start)
    ensures Latest(b, m.board, |m.board|, 0, Goal, r.goal, m.goal)
  {
    var board, start, goal := m.board, m.start, m.goal;
    var row := 0;
    while row < |m.board|
      invariant 0 <= row <= |m.board|
      invariant Scanned(m, b, row, 0, board, start, goal)
    {
      board, start, goal := SetBoardRow(m, b, row, board, start, goal);
      RowDone(m, b, row, board, start, goal);
      row := row + 1;
    }
    r := Manager(board, start, goal);
    LoadedValid(m, b, r);
  }

  /** Loading every cell leaves recorded positions that lie on the board. */
  lemma LoadedValid(m: Manager, b: Grid, r: Manager)
    requires Valid(m) && Covers(b, m.board)
    requires LoadedUpTo(b, m.board, r.board, |m.board|, 0)
    requires Latest(b, m.board, |m.board|, 0, Start, r.start, m.start)
    requires Latest(b, m.board, |m.board|, 0, Goal, r.goal, m.goal)
    ensures Valid(r) && SameShape(r.board, m.board) && Width(r.board) == Width(m.board)
    ensures forall q | InBounds(m.board, q) :: At(r.board, q) == Loaded(b[q.0][q.1])
  {
  }

  /** The end of a row is the start of the next one. */
  lemma RowDone(m: Manager, b: Grid, row: int, board: Grid, start: Option<Position>, goal: Option<Position>)
    requires Valid(m) && Covers(b, m.board) && 0 <= row < |m.board|
    requires Scanned(m, b, row, Width(m.board), board, start, goal)
    ensures Scanned(m, b, row + 1, 0, board, start, goal)
  {
    assert forall q | InBounds(m.board, q) :: Seen(m.board, row, Width(m.board), q) == Seen(m.board, row + 1, 0, q);
  }

  /** The inner loop of `setBoard` (algorithmManger.js:66-80) over one row. */
  method SetBoardRow(m: Manager, b: Grid, row: int, board: Grid, start: Option<Position>, goal: Option<Position>)
    returns (board': Grid, start': Option<Position>, goal': Option<Position>)
    requires Valid(m) && Covers(b, m.board) && 0 <= row < |m.board|
    requires Scanned(m, b, row, 0, board, start, goal)
    ensures Scanned(m, b, row, Width(m.board), board', start', goal')
  {
    board', start', goal' := board, start, goal;
    var col := 0;
    while col < Width(m.board)
      invariant 0 <= col <= Width(m.board)
      invariant Scanned(m, b, row, col, board', start', goal')
    {
      board', start', goal' := LoadCell(m, b, row, col, board', start', goal');
      col := col + 1;
    }
  }

  /** One pass of the inner loop of `setBoard` (algorithmManger.js:68-79): load the cell at (row, col). */
  method LoadCell(m: Manager, b: Grid, row: int, col: int, board: Grid, start: Option<Position>, goal: Option<Position>)
    returns (board': Grid, start': Option<Position>, goal': Option<Position>)
    requires Valid(m) && Covers(b, m.board) && InBounds(m.board, (row, col))
    requires Scanned(m, b, row, col, board, start, goal)
    ensures Scanned(m, b, row, col + 1, board', start', goal')
  {
    var newSymbol := b[row][col];
    var p := (row, col);
    board', start', goal' := board, start, goal;
    if newSymbol == Start {
      start' := Some(p);
      board' := SetAt(board, p, Empty);
    } else {
      if newSymbol == Goal {
        goal' := Some(p);
      }
      board' := SetAt(board, p, newSymbol);
    }
    CellLoaded(m, b, row, col, board, board');
    LatestStep(b, m.board, row, col, Start, start, start', m.start);
    LatestStep(b, m.board, row, col, Goal, goal, goal', m.goal);
  }

  lemma CellLoaded(m: Manager, b: Grid, row: int, col: int, before: Grid, after: Grid)
    requires Valid(m) && Covers(b, m.board) && InBounds(m.board, (row, col))
    requires LoadedUpTo(b, m.board, before, row, col)
    requires IsGrid(after) && SameShape(after, before) && Width(after) == Width(before)
    requires At(after, (row, col)) == Loaded(b[row][col])
    requires forall q | InBounds(before, q) && q != (row, col) :: At(after, q) == At(before, q)
    ensures LoadedUpTo(b, m.board, after, row, col + 1)
  {
  }

  lemma LatestStep(b: Grid, board: Grid, row: int, col: int, sym: Symbol,
                   cur: Option<Position>, cur': Option<Position>, dflt: Option<Position>)
    requires IsGrid(board) && Covers(b, board) && InBounds(board, (row, col))
    requires Latest(b, board, row, col, sym, cur, dflt)
    requires cur' == if b[row][col] == sym then Some((row, col)) else cur
    ensures Latest(b, board, row, col + 1, sym, cur', dflt)
  {
  }

  /**
   * `setCell` (algorithmManger.js:84-96) as the source has it: the start
   * symbol empties the cell and records the start; the goal symbol first
   * empties the cell at the recorded goal position, which it never updates,
   * and fails when no goal has been recorded (the source indexes the board
   * with null); any other symbol is written to the cell.
   */
  function SetCellAsWritten(m: Manager, p: Position, symbol: Symbol): (r: Option<Manager>)
    requires Valid(m) && InBounds(m.board, p)
    ensures r.None? <==> symbol == Goal && m.goal.None?
    ensures r.Some? ==> Valid(r.value) && r.value.goal == m.goal
  {
    if symbol == Start then
      Some(m.(board := SetAt(m.board, p, Empty), start := Some(p)))
    else if symbol == Goal then
      if m.goal.None? then None
      else Some(m.(board := SetAt(SetAt(m.board, m.goal.value, Empty), p, Goal)))
    else
      Some(m.(board := SetAt(m.board, p, symbol)))
  }

  /** Every goal cell on the board is the recorded goal, so there is at most one. */
  ghost predicate GoalTracked(m: Manager)
    requires Valid(m)
  {
    forall q | InBounds(m.board, q) && At(m.board, q) == Goal :: m.goal == Some(q)
  }

  /**
   * `setCell` as evidently intended: moving the goal also records its new
   * position, and placing the first goal clears nothing.
   */
  function SetCell(m: Manager, p: Position, symbol: Symbol): (r: Manager)
    requires Valid(m) && InBounds(m.board, p)
    ensures Valid(r) && SameShape(r.board, m.board)
    ensures symbol == Start ==> r.start == Some(p) && At(r.board, p) == Empty
    ensures symbol != Start ==> r.start == m.start && At(r.board, p) == symbol
    ensures symbol == Goal ==> r.goal == Some(p)
    ensures symbol != Goal ==> r.goal == m.goal
    ensures forall q | InBounds(m.board, q) && q != p && (symbol != Goal || m.goal != Some(q)) :: At(r.board, q) == At(m.board, q)
  {
    if symbol == Start then
      m.(board := SetAt(m.board, p, Empty), start := Some(p))
    else if symbol == Goal then
      var cleared := if m.goal.Some? then SetAt(m.board, m.goal.value, Empty) else m.board;
      m.(board := SetAt(cleared, p, Goal), goal := Some(p))
    else
      m.(board := SetAt(m.board, p, symbol))
  }

  /** The corrected `setCell` keeps every goal cell the recorded goal, and never stores the start symbol. */
  lemma SetCellKeepsGoalTracked(m: Manager, p: Position, symbol: Symbol)
    requires Valid(m) && InBounds(m.board, p) && GoalTracked(m) && NoStart(m.board)
    ensures var r := SetCell(m, p, symbol); GoalTracked(r) && NoStart(r.board)
  {
  }

  /** Outside the goal symbol, the corrected `setCell` is the source's. */
  lemma SetCellAgrees(m: Manager, p: Position, symbol: Symbol)
    requires Valid(m) && InBounds(m.board, p) && symbol != Goal
    ensures SetCellAsWritten(m, p, symbol) == Some(SetCell(m, p, symbol))
  {
  }

  /**
   * The source's `setCell` never stores the start symbol, and a symbol other
   * than start or goal changes only its own cell.
   */
  lemma SetCellAsWrittenCells(m: Manager, p: Position, symbol: Symbol)
    requires Valid(m) && InBounds(m.board, p) && NoStart(m.board)
    ensures var r := SetCellAsWritten(m, p, symbol);
      && (r.Some? ==> NoStart(r.value.board) && SameShape(r.value.board, m.board))
      && (symbol == Start ==> r.Some? && r.value.start == Some(p) && At(r.value.board, p) == Empty)
      && (symbol != Start && symbol != Goal ==>
            r.Some? && r.value.start == m.start && At(r.value.board, p) == symbol
            && forall q | InBounds(m.board, q) && q != p :: At(r.value.board, q) == At(m.board, q))
      && (symbol == Goal && m.goal.Some? ==>
            r.Some? && At(r.value.board, p) == Goal
            && (m.goal.value != p ==> At(r.value.board, m.goal.value) == Empty))
  {
  }

  /**
   * On a 1 x 3 board holding a goal at (0, 0), moving the goal twice with the
   * source's `setCell` leaves two goal cells: the second move clears the
   * stale recorded position (0, 0) instead of (0, 1).
   */
  lemma SetCellLeavesTwoGoals()
    ensures var m := Manager([[Goal, Empty, Empty]], None, Some((0, 0)));
      var m1 := SetCellAsWritten(m, (0, 1), Goal);
      && m1.Some? && var m2 := SetCellAsWritten(m1.value, (0, 2), Goal);
      && m2.Some? && m2.value.board == [[Empty, Goal, Goal]]
      && !GoalTracked(m2.value)
  {
    var m := Manager([[Goal, Empty, Empty]], None, Some((0, 0)));
    var m1 := SetCellAsWritten(m, (0, 1), Goal).value;
    assert [Goal, Empty, Empty][0 := Empty] == [Empty, Empty, Empty];
    assert SetAt(m.board, (0, 0), Empty) == [[Empty, Empty, Empty]];
    assert [Empty, Empty, Empty][1 := Goal] == [Empty, Goal, Empty];
    assert m1.board == [[Empty, Goal, Empty]];
    var m2 := SetCellAsWritten(m1, (0, 2), Goal).value;
    assert [Empty, Goal, Empty][0 := Empty] == [Empty, Goal, Empty];
    assert SetAt(m1.board, (0, 0), Empty) == [[Empty, Goal, Empty]];
    assert [Empty, Goal, Empty][2 := Goal] == [Empty, Goal, Goal];
    assert m2.board == [[Empty, Goal, Goal]];
    assert At(m2.board, (0, 1)) == Goal;
  }

  /** The same two moves with the corrected `setCell` leave one goal, at (0, 2). */
  lemma SetCellMovesGoal()
    ensures var m := Manager([[Goal, Empty, Empty]], None, Some((0, 0)));
      var m2 := SetCell(SetCell(m, (0, 1), Goal), (0, 2), Goal);
      m2.board == [[Empty, Empty, Goal]] && m2.goal == Some((0, 2))
  {
    var m := Manager([[Goal, Empty, Empty]], None, Some((0, 0)));
    var m1 := SetCell(m, (0, 1), Goal);
    assert [Goal, Empty, Empty][0 := Empty] == [Empty, Empty, Empty];
    assert SetAt(m.board, (0, 0), Empty) == [[Empty, Empty, Empty]];
    assert [Empty, Empty, Empty][1 := Goal] == [Empty, Goal, Empty];
    assert m1.board == [[Empty, Goal, Empty]];
    assert [Empty, Goal, Empty][1 := Empty] == [Empty, Empty, Empty];
    assert SetAt(m1.board, (0, 1), Empty) == [[Empty, Empty, Empty]];
    assert [Empty, Empty, Empty][2 := Goal] == [Empty, Empty, Goal];
  }

  /** `setBoard` never stores the start symbol. */
  lemma SetBoardNoStart(m: Manager, b: Grid, r: Manager)
    requires Valid(m) && Covers(b, m.board) && Valid(r) && SameShape(r.board, m.board)
    requires forall q | InBounds(m.board, q) :: At(r.board, q) == Loaded(b[q.0][q.1])
    ensures NoStart(r.board)
  {
  }

  /**
   * `depthFirstSearch` (algorithmManger.js:46-54): nothing while the start
   * is unset, otherwise the depth-first trace and the memoised route from
   * the start.
   */
  function DepthFirstSearch(m: Manager): (r: Option<(seq<Position>, seq<Position>)>)
    requires Valid(m)
    ensures r.None? <==> m.start.None?
    ensures r.Some? ==> r.value.1 == [] || r.value.1[0] == m.start.value
    ensures r.Some? ==> (|r.value.0| > 0 <==> Open(m.board, m.start.value))
    ensures r.Some? && |r.value.0| > 0 ==> r.value.0[0] == m.start.value
  {
    if m.start.None? then None
    else Some((DepthFirst.DfsPath(m.board, m.start.value), DepthFirst.ShortestPath(m.board, m.start.value)))
  }

  /**
   * `breadthFirstSearch` (algorithmManger.js:36-44): nothing while the start
   * is unset, otherwise the breadth-first trace and the memoised route from
   * the start.
   */
  method BreadthFirstSearch(m: Manager) returns (r: Option<(seq<Position>, seq<Position>)>)
    requires Valid(m)
    ensures r.None? <==> m.start.None?
    ensures r.Some? ==> |r.value.0| > 0 && r.value.0[0] == m.start.value
    ensures r.Some? ==> (GoalAt(m.board, r.value.0[|r.value.0| - 1]) <==>
                         exists p :: GoalAt(m.board, p) && Reachable(m.board, m.start.value, p))
    ensures r.Some? ==> r.value.1 == DepthFirst.ShortestPath(m.board, m.start.value)
  {
    if m.start.None? {
      return None;
    }
    var bfsPath := BreadthFirst.BreadthFirstPath(m.board, m.start.value);
    var shortestPath := DepthFirst.ShortestPath(m.board, m.start.value);
    r := Some((bfsPath, shortestPath));
  }
}
