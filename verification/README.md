# maze-search, modelled in Dafny

This project models the core of maze-search, a browser toy. It generates a
rectangular maze of walls and open cells and searches it from a start cell
for a goal cell. The search is breadth-first or depth-first, and a
depth-first search with a memo computes the route it reveals at the end.
The visit order is then played back one cell at a time, forward or backward,
at one of four speeds.

The modules follow the source files:

- `Wrappers` (wrappers.dfy): `Option`.
- `Grids` (grids.dfy): the shared vocabulary.
  - The cell symbols. The source uses the strings "O", "W", "S" and "G", plus two display-only symbols.
  - Positions, grids and the four neighbours in the source's order: up, down, left, right.
  - Reachability in at most k moves through non-wall cells (`WithinSteps`), the reference both searches are checked against.
- `Deques` (deques.dfy): the doubly linked deque of `src/deque/deque.js`, seen as a sequence of items.
- `LinkedDeque` (linked_deque.dfy): the same deque at node level.
  - Nodes live in a map from node ids to `(value, prev, next)`, with head, tail and a length counter.
  - Each operation is shown to act on the sequence of items exactly as the sequence-level operation does.
- `BreadthFirst` (bfs.dfy): `breadthFirstPath` and `shortestDistance` of `src/searchAlgorithms/breadthFirstSearch.js`. Both are methods with the source's loops, driven by the modelled deque.
- `DepthFirst` (dfs.dfy): `dfsPath` and `shortestPath` of `src/searchAlgorithms/depthFirstSearch.js`.
  - Both recursions are mutually recursive pure functions.
  - The mutable visited set and output path are threaded through as values.
- `MazeGenerator` (maze.dfy): `src/mazeGenerator.js`, the starting lattice and the randomised carving.
  - `Math.random()` is an oracle: a function from the number of the draw to a real in [0, 1).
- `Board` (board.dfy): the board state of `src/algorithmManger.js`.
  - Board creation, reset and loading.
  - Single-cell edits, the source's version and a corrected one.
  - The two search entry points.
- `Playback` (playback.dfy): the step, undo, speed and autoplay logic of `src/searchAlgorithmInterface.js`.
  - The page is a map from positions to the symbols shown.
  - The source's undo closures are data saying what to repaint.
  - A corrected undo records what each cell showed before.
  - Button presses and timer firings are events.

Behaviours of the source worth noting, which the model keeps:

- `setBoard` stores a start cell as empty on the board and remembers the start only in its coordinates (src/algorithmManger.js:68-72).
- `setCell` does not clear an old start cell, and it never records a moved goal, so the recorded goal goes stale (src/algorithmManger.js:84-96; see Findings).
- `generateMaze` returns the carved grid without placing a start or goal cell (src/mazeGenerator.js:10-31).
- Pausing only clears the running flag (src/searchAlgorithmInterface.js:94-96, 117-118 and 127-129). A run that `autoPlay` has already scheduled with `setTimeout` still fires (src/searchAlgorithmInterface.js:200-202; see Findings).

## Model

| member | source | states |
|---|---|---|
| Deques.Push | src/deque/deque.js:23-35 | the length grows by one, the old items keep their places and the new value is last |
| Deques.PushLeft | src/deque/deque.js:37-49 | the length grows by one, the new value is first and the old items follow in order |
| Deques.Pop | src/deque/deque.js:51-69 | an empty deque yields nothing and is unchanged; otherwise the last item comes out and the rest plus that item is the old deque |
| Deques.PopLeft | src/deque/deque.js:71-89 | an empty deque yields nothing and is unchanged; otherwise the first item comes out and that item plus the rest is the old deque |
| Deques.DrainLeftYieldsItems | src/deque/deque.js:71-89 | popping from the left until empty yields the items front to back |
| Deques.FifoOrder | src/deque/deque.js:7-17 | a deque built from a list and drained from the left gives the list back in the same order |
| Deques.PushAllLeftItems | src/deque/deque.js:37-49 | pushing a list one by one on the left puts it, reversed, in front of the old items |
| Deques.LifoOrder | src/deque/deque.js:37-49 | items pushed on the left and drained from the left come out in reverse order |
| LinkedDeque.Empty | src/deque/deque.js:8-10 | a fresh deque is a well-formed chain holding no items |
| LinkedDeque.Push | src/deque/deque.js:23-35 | on a well-formed node chain, linking a new tail node keeps the chain well formed and acts on its items as Deques.Push; the tail is the new node |
| LinkedDeque.PushLeft | src/deque/deque.js:37-49 | linking a new head node keeps the chain well formed and acts on its items as Deques.PushLeft; the head is the new node |
| LinkedDeque.Pop | src/deque/deque.js:51-69 | unlinking the tail (both ends cleared for a one-node deque) keeps the chain well formed and yields what Deques.Pop yields; head, tail and length stay in step |
| LinkedDeque.PopLeft | src/deque/deque.js:71-89 | unlinking the head keeps the chain well formed and yields what Deques.PopLeft yields; head, tail and length stay in step |
| LinkedDeque.FromItems | src/deque/deque.js:7-17 | constructing from a list gives a well-formed chain whose items are the list |
| BreadthFirst.EnqueueNeighbors | src/searchAlgorithms/breadthFirstSearch.js:25-44 | afterwards every open neighbour of the expanded cell is visited, only grid cells are added, and the loop invariant holds again: queued cells carry their exact distances in non-decreasing order and everything nearer is expanded |
| BreadthFirst.BreadthFirstPath | src/searchAlgorithms/breadthFirstSearch.js:11-48 | the visit order starts at the start, has no repeats and holds only reachable cells; it stops at the first goal; it ends on a goal iff one is reachable, and then on a nearest one; without a goal it is exactly the reachable region; cells appear in order of distance |
| BreadthFirst.RelaxNeighbors | src/searchAlgorithms/breadthFirstSearch.js:66-80 | afterwards every open neighbour is visited and the queue stays sorted by distance, spanning at most two levels; every queued distance is achievable, and exact except for the start queued again |
| BreadthFirst.ShortestDistance | src/searchAlgorithms/breadthFirstSearch.js:50-84 | -1 exactly when no goal is reachable; otherwise some goal is within that many moves and no goal is closer |
| DepthFirst.Descend | src/searchAlgorithms/depthFirstSearch.js:68-101 | the path only grows and keeps its prefix; it grows iff the cell is an unvisited non-wall cell in the grid, and then with that cell; a success ends the path on a goal |
| DepthFirst.DescendFrom | src/searchAlgorithms/depthFirstSearch.js:93-98 | trying the remaining neighbours only grows the visited set and the path; a success ends on a goal |
| DepthFirst.DescendFacts | src/searchAlgorithms/depthFirstSearch.js:68-101 | new path cells are distinct, open and unvisited before; no goal precedes the last; each new cell neighbours an earlier one, so the cells form a search tree; after a failure the visited set grows by exactly the path cells and is closed under open neighbours; a failed open cell ends visited |
| DepthFirst.DescendFromFacts | src/searchAlgorithms/depthFirstSearch.js:93-98 | the same facts across the neighbour loop; on failure every open neighbour from the i-th on is visited |
| DepthFirst.DfsPath | src/searchAlgorithms/depthFirstSearch.js:61-66 | the path is empty iff the start is a wall or off the grid, and otherwise begins at the start |
| DepthFirst.DfsPathCells | src/searchAlgorithms/depthFirstSearch.js:61-101 | the path has no repeats, only non-wall cells, and no goal before its last cell |
| DepthFirst.DfsPathTree | src/searchAlgorithms/depthFirstSearch.js:82-98 | every cell after the first neighbours some earlier cell of the path |
| DepthFirst.DfsPathReachable | src/searchAlgorithms/depthFirstSearch.js:61-101 | the i-th cell is reachable from the start in at most i moves |
| DepthFirst.DfsPathFindsGoal | src/searchAlgorithms/depthFirstSearch.js:61-101 | a non-empty path ends on a goal iff some goal is reachable from the start |
| DepthFirst.Shortest | src/searchAlgorithms/depthFirstSearch.js:15-59 | the memo only grows and never overwrites an entry; without a memo entry the route is empty or ends at the cell; an open, unvisited cell that is no goal ends memoised with the route returned; an in-grid cell off the current route with a memo entry returns that entry |
| DepthFirst.ShortestFrom | src/searchAlgorithms/depthFirstSearch.js:44-51 | the best sub-route found is never longer than the one held, and replaces it only when strictly shorter, so the earliest of equal length wins; an empty result means nothing was held; the memo only grows |
| DepthFirst.ShortestFacts | src/searchAlgorithms/depthFirstSearch.js:15-59 | every memo entry stays empty or a route from a goal to its key; earlier entries are kept unchanged; a non-empty result is a route from a goal to the cell |
| DepthFirst.ShortestFromFacts | src/searchAlgorithms/depthFirstSearch.js:44-57 | across the neighbour loop the memo stays sound and the kept sub-route leads from a neighbour to a goal |
| DepthFirst.ShortestPath | src/searchAlgorithms/depthFirstSearch.js:7-13 | a non-empty reversed route begins at the start |
| DepthFirst.ShortestPathAtStart | src/searchAlgorithms/depthFirstSearch.js:15-35 | a wall or off-grid start gives no route; a start on a goal gives the one-cell route |
| DepthFirst.ShortestPathIsRoute | src/searchAlgorithms/depthFirstSearch.js:7-59 | a non-empty result is a walk of neighbouring non-wall cells from the start to a goal, with no goal before its end, so that goal is within length minus one moves |
| MazeGenerator.RandInt | src/mazeGenerator.js:88-92 | for integral bounds the draw lies in [min, max); an empty range gives min and a reversed one a value between the bounds |
| MazeGenerator.CounterParity | src/mazeGenerator.js:73-80 | the running row and cell counters are both odd exactly when row and column are both even |
| MazeGenerator.LatticeGridCells | src/mazeGenerator.js:71-86 | the starting grid is height by width, with a cell open iff both coordinates are even and a wall otherwise |
| MazeGenerator.StartingGrid | src/mazeGenerator.js:71-86 | the nested counter loops build exactly that lattice |
| MazeGenerator.StartingRow | src/mazeGenerator.js:77-83 | one pass of the inner loop builds that lattice row and advances the cell counter by the width |
| MazeGenerator.Carve | src/mazeGenerator.js:33-48 | carving keeps the grid's shape and only adds in-grid cells to the visited set; success implies the cell is in the grid; a failed call leaves the grid, the visited set and the draw counter unchanged |
| MazeGenerator.CarveFrom | src/mazeGenerator.js:55-66 | the jump loop keeps the grid's shape and only adds in-grid cells to the visited set |
| MazeGenerator.CarveWall | src/mazeGenerator.js:60-61 | knocking down the wall between a cell and a jump target in the grid opens that wall cell and changes nothing else |
| MazeGenerator.CarveFacts | src/mazeGenerator.js:33-69 | a call succeeds iff the cell is in the grid, the budget is non-zero and the cell is unvisited; only walls between lattice cells are opened; every newly visited cell is a lattice cell reachable from where the call started |
| MazeGenerator.CarveFromFacts | src/mazeGenerator.js:55-66 | every cell the jump loop visits is a lattice cell reachable from the current cell through the opened walls |
| MazeGenerator.BudgetOneCarvesNothing | src/mazeGenerator.js:39-41 | with a budget of one the first jumps get budget zero, so the loop opens no wall and visits nothing |
| MazeGenerator.CarveBudgetOne | src/mazeGenerator.js:39-58 | a walk with budget one leaves the grid unchanged and visits at most its own cell |
| MazeGenerator.PickStart | src/mazeGenerator.js:17-25 | the chosen start is on a row of the grid, is not a wall, and lies in the grid when rows are non-empty |
| MazeGenerator.GenerateMaze | src/mazeGenerator.js:10-31 | no maze comes from a grid without rows |
| MazeGenerator.GenerationFacts | src/mazeGenerator.js:10-31 | the maze is height by width and holds only open and wall cells; every lattice cell is open; only walls between lattice cells may be open; every carved cell is reachable from the start |
| Board.CreateBoard | src/algorithmManger.js:24-34 | height rows of width cells, all empty |
| Board.NewManager | src/algorithmManger.js:7-22 | an all-empty board with no start and no goal recorded |
| Board.ResetBoard | src/algorithmManger.js:56-62 | same shape, every cell empty, start and goal coordinates untouched |
| Board.LoadCell | src/algorithmManger.js:67-79 | loading one cell keeps the scan invariant: loaded cells hold the new symbol, start cells hold empty, start and goal are the last ones scanned |
| Board.SetBoardRow | src/algorithmManger.js:66-80 | loading one row keeps the scan invariant to the row's end |
| Board.SetBoard | src/algorithmManger.js:64-82 | every cell holds the loaded symbol with a start stored as empty; the recorded start and goal are the last in row-major order, or the old ones when none is seen |
| Board.SetBoardNoStart | src/algorithmManger.js:68-72 | a loaded board never holds a start symbol |
| Board.SetCellAsWritten | src/algorithmManger.js:84-96 | fails exactly when a goal is placed while no goal was ever recorded; never changes the recorded goal |
| Board.SetCellAsWrittenCells | src/algorithmManger.js:84-96 | a start is recorded and stored as empty; other symbols are written and leave the rest alone; a goal also empties the recorded goal cell |
| Board.SetCellLeavesTwoGoals | src/algorithmManger.js:92-95 | moving a goal twice leaves two goal cells on the board and a recorded goal that holds none |
| Board.SetCell | src/algorithmManger.js:84-96 | the corrected edit: a start is recorded and stored empty; a goal moves the recorded goal, emptying the old goal cell if there is one; no other cell changes |
| Board.SetCellKeepsGoalTracked | src/algorithmManger.js:84-96 | the corrected edit keeps the invariant that the only goal cell is the recorded goal, and keeps the board free of start symbols |
| Board.SetCellAgrees | src/algorithmManger.js:84-91 | for every symbol but the goal, the corrected edit does what the source does |
| Board.SetCellMovesGoal | src/algorithmManger.js:92-95 | on the same two moves the corrected edit leaves one goal, at the recorded position |
| Board.BreadthFirstSearch | src/algorithmManger.js:36-44 | nothing without a start; otherwise a visit order from the start ending on a goal iff one is reachable, plus the depth-first route |
| Board.DepthFirstSearch | src/algorithmManger.js:46-54 | nothing without a start; otherwise a depth-first path that is non-empty iff the start is open, plus a route beginning at the start |
| Playback.Delay | src/searchAlgorithmInterface.js:51 | the autoplay delay is one of 500, 250, 100 and 0 ms |
| Playback.PressSpeed | src/searchAlgorithmInterface.js:99-104 | the speed advances by one; past the last it wraps to the first and flips the direction |
| Playback.SpeedCycle | src/searchAlgorithmInterface.js:99-104 | four presses restore the speed and flip the direction only |
| Playback.PaintAll | src/searchAlgorithmInterface.js:172-175 | every listed cell shows the symbol and every other cell keeps what it showed |
| Playback.ShowVisitedCell | src/searchAlgorithmInterface.js:149-169 | past the end nothing changes; one step short of the end the route is painted; otherwise the next trace cell shows visited and one undo entry is added |
| Playback.ShowShortestPath | src/searchAlgorithmInterface.js:171-184 | the route cells show the path symbol, and the undo entry repaints them visited |
| Playback.Undo | src/searchAlgorithmInterface.js:139-147 | with no history nothing changes; otherwise the step count drops by one and the last entry's cells are repainted |
| Playback.UndoVisitedStep | src/searchAlgorithmInterface.js:160-167 | when the cell showed the symbol the undo entry assumes, one step forward and one back restore the player |
| Playback.UndoRouteRepaintsStart | src/searchAlgorithmInterface.js:178-183 | undoing the route reveal leaves the start cell showing visited, though it showed the start before |
| Playback.UndoLastCellShowsGoal | src/searchAlgorithmInterface.js:164-167 | undoing the step to the last trace cell shows a goal there even when that cell was empty |
| Playback.Tick | src/searchAlgorithmInterface.js:186-203 | fails exactly when playing backward with no history; otherwise one step in the play direction, and the run goes on only while it was running and is strictly inside the trace |
| Playback.NextFails | src/searchAlgorithmInterface.js:186-190 | an event fails exactly when a scheduled tick fires backward at the beginning |
| Playback.Handle | src/searchAlgorithmInterface.js:84-137 | each button and timer event moves the step count, run flag, speed, direction and pending ticks as the abstract transition says, failing exactly where it does |
| Playback.RunMovesControls | src/searchAlgorithmInterface.js:84-137 | a sequence of events moves the controls as the abstract transitions compose |
| Playback.NextRunsAfterPause | src/searchAlgorithmInterface.js:186-202 | in the source, a run scheduled before a pause still moves the playback when it fires, wherever there is room to move |
| Playback.PendingRunSource | src/searchAlgorithmInterface.js:186-190 | on the controls of a three-cell trace: forward twice, speed four times, play, back twice, then the pending tick fails |
| Playback.PendingRunFails | src/searchAlgorithmInterface.js:186-190 | on a three-cell trace: forward twice, speed four times, play, back twice, then the pending tick; the source's handlers fail |
| Playback.Record | src/searchAlgorithmInterface.js:162-168 | the corrected step paints as the source does and records each painted cell with its prior symbol |
| Playback.RestoreRecord | src/searchAlgorithmInterface.js:162-168 | replaying a recorded undo entry gives back exactly the page before the paint |
| Playback.Forward | src/searchAlgorithmInterface.js:149-169 | the corrected step paints as the source does, and its undo entry restores the page before |
| Playback.Back | src/searchAlgorithmInterface.js:139-147 | the corrected undo drops one step and restores the page the last entry recorded |
| Playback.BackUndoesForward | src/searchAlgorithmInterface.js:139-169 | one step forward then one back gives back exactly the player before |
| Playback.PlaybackRoundTrip | src/searchAlgorithmInterface.js:139-184 | any number of steps forward within the trace, then as many back, gives back the player before, every cell included |
| Playback.BackRestoresStartAndLastCell | src/searchAlgorithmInterface.js:164-183 | on the two inputs where the source's undo goes wrong, the corrected undo restores the start cell and the empty last cell |
| Playback.Step | src/searchAlgorithmInterface.js:186-198 | the corrected tick moves one step in the play direction, never fails, and keeps running only strictly inside the trace |
| Playback.NextGuardedAgrees | src/searchAlgorithmInterface.js:186-203 | wherever the source's transition succeeds and the event is not a pause, the guarded one does the same |
| Playback.NextPauseCancels | src/searchAlgorithmInterface.js:90-135 | a pause stops the playback in both; only the guarded transition also cancels the scheduled run |
| Playback.NextGuardedQuiet | src/searchAlgorithmInterface.js:186-203 | the guarded transition never fails and keeps exactly one run scheduled while playing and none while stopped |
| Playback.HandleFixed | src/searchAlgorithmInterface.js:84-137 | the corrected handlers move the controls as the guarded transition says, which never fails; a pause also cancels the scheduled run |
| Playback.TickAfterPause | src/searchAlgorithmInterface.js:90-135 | with the corrected handlers a pause stops the player where it is, and a run that fires afterwards changes nothing |
| Playback.RunFixedQuiet | src/searchAlgorithmInterface.js:186-203 | over any sequence of events the corrected handlers keep exactly one run scheduled while playing and none while stopped |
| Playback.PendingRunGuarded | src/searchAlgorithmInterface.js:84-137 | on the controls of the same events the guarded transitions end stopped at the beginning, playing backward, with nothing scheduled |
| Playback.RunFixedMovesControls | src/searchAlgorithmInterface.js:84-137 | a sequence of events moves the corrected controls as the guarded transitions compose |
| Playback.PendingRunFixed | src/searchAlgorithmInterface.js:186-203 | on the same events the corrected handlers end at the beginning, playing backward, stopped, with nothing scheduled |

## Left out

- DOM, CSS and event plumbing are not modelled. This covers `displayBoard.js`, `createElement.js`, `initializeInterface` and the button lookup (searchAlgorithmInterface.js:85-88). The page is a map from positions to symbols.
- `#randomizeGrid`, `#generateSearch` and `validStart` are left out; they glue the modelled parts together. Button events are modelled with a valid start and a search already generated.
- `setTimeout` is a count of pending ticks delivered by `Timer` events; wall-clock time is not modelled. `Playback.Delay` gives the delay chosen.
- `Math.random()` is an oracle, a function from the draw number to a real in [0, 1), not a generator.
- MazeGenerator.RandInt: only integral bounds are modelled. The source's `Math.ceil`/`Math.floor` on the bounds are identities on integers. Its only non-integral argument, `grid.length / 2`, is modelled as the floored integer division.
- MazeGenerator.PickStart: the source's retry loop has no bound. The model gives it a number of attempts and yields nothing when they run out.
- MazeGenerator.GenerateMaze: the source fails on a grid with no rows (it reads the width of row 0). The model yields nothing.
- MazeGenerator.CarveFacts: the carved maze is not claimed to be a tree. Acyclicity and the exact set of opened walls are not stated.
- DepthFirst.ShortestPath: the route is not claimed to be shortest, nor to exist whenever a goal is reachable.
  - The memo keeps routes found while other cells were on the current route, and those can be longer than a direct one.
  - Only soundness is proved: the route is a walk from the start to a goal.
- DepthFirst.Shortest: values replace the source's mutable arrays.
  - A memo hit returns the stored array itself, and a caller may later push onto it. The model does not reproduce this aliasing.
  - Each memo entry is the route as computed.
- DepthFirst.ShortestPathIsRoute: the walk property holds for the alias-free model only.
  - In the source a memo hit returns the stored array, and the caller pushes onto it (src/searchAlgorithms/depthFirstSearch.js:25-26, 50, 55 and 57). A later hit on the same cell then returns the extended array.
  - Example: a 4×4 grid of empty cells with the goal at (2, 2) and the start at (1, 1). The source returns (1, 1), (1, 3), (1, 2), (2, 2).
  - That is not a walk, because (1, 1) and (1, 3) are not neighbours.
- DepthFirst.DfsPath and DepthFirst.ShortestPath on a grid without rows: the source fails reading row 0's width, and the model returns an empty result.
- BreadthFirst.BreadthFirstPath and BreadthFirst.ShortestDistance require the start row to exist. The source indexes `grid[row]` for the start before any bounds check and fails otherwise.
- LinkedDeque: object identity is modelled by node ids in a map. A ghost list of ids names the chain from head to tail.
- Board.SetBoard: the model requires the loaded grid to cover the board's shape. The source reads `undefined` past a shorter grid's end.

## Findings

| source | as written | input that shows it | evidently intended | confidence | as-written member | corrected member |
|---|---|---|---|---|---|---|
| src/algorithmManger.js:92-95 | placing a goal empties the cell at the recorded goal coordinates but never updates them | board `[[G, O, O]]` with goal recorded at (0, 0); place a goal at (0, 1), then at (0, 2): the board holds goals at (0, 1) and (0, 2) | moving the goal leaves exactly one goal cell, at the recorded coordinates | not executed | Board.SetCellLeavesTwoGoals | Board.SetCellKeepsGoalTracked |
| src/searchAlgorithmInterface.js:178-183 | undoing the route reveal repaints every route cell as visited | trace and route both `[s, g]`; step forward twice, then back once: s, which showed the start, now shows visited | undo restores what each cell showed before | not executed | Playback.UndoRouteRepaintsStart | Playback.PlaybackRoundTrip |
| src/searchAlgorithmInterface.js:164-167 | undoing the step to the last trace cell always repaints it as a goal | trace `[s, c]` with c empty (no goal reachable); step forward, then back: c shows a goal | the last cell gets back the symbol it showed | not executed | Playback.UndoLastCellShowsGoal | Playback.BackUndoesForward |
| src/searchAlgorithmInterface.js:186-190 | a tick scheduled before a pause still fires, and in reverse it pops the history without checking it | three-cell trace: forward, forward, speed ×4 (reverse), play (one step back, next tick scheduled), back (pause), back (to the beginning), then the scheduled tick: it pops an empty history and calls `undefined` | a pause cancels the scheduled run, as `clearTimeout` would, so a run that fires after a pause changes nothing | not executed | Playback.PendingRunFails | Playback.TickAfterPause |
