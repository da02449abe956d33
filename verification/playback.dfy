/**
 * Step-by-step playback of a search, after src/searchAlgorithmInterface.js:
 * the search trace is revealed one cell at a time, the direct route is
 * revealed after the last cell, every step pushes an undo entry, and a
 * timer ("autoplay") repeats forward or backward steps.
 *
 * The page's cells are a map from positions to the symbol they show. Two
 * versions of the undo entries are modelled: the source's, which repaint
 * with a fixed symbol, and the evidently intended one, which restores what
 * each cell showed before.
 */
module Playback {
  import opened Wrappers
  import opened Grids

  /** What each cell of the page shows. */
  type Display = map<Position, Symbol>

  /**
   * The playback state: the trace and direct route of the current search,
   * how many steps are shown, one undo entry per step (of type E), the
   * page, and the autoplay controls.
   */
  datatype Player<E> = Player(
    trace: seq<Position>,
    direct: seq<Position>,
    index: int,
    history: seq<E>,
    display: Display,
    running: bool,
    speedIndex: int,
    reverse: bool)

  /** The autoplay delays in milliseconds, slowest first (searchAlgorithmInterface.js:51). */
  const Speeds: seq<nat> := [500, 250, 100, 0]

  /** Each shown step has exactly one undo entry, and at most the whole trace and the route are shown. */
  predicate Inv<E>(pl: Player<E>) {
    0 <= pl.index <= |pl.trace| && |pl.history| == pl.index && 0 <= pl.speedIndex < |Speeds|
  }

  /** The delay before the next autoplay step. */
  function Delay<E>(pl: Player<E>): (ms: nat)
    requires Inv(pl)
    ensures ms in Speeds
  {
    Speeds[pl.speedIndex]
  }

  /** Paint every cell of `cells` with `symbol`, in order. */
  function PaintAll(d: Display, cells: seq<Position>, symbol: Symbol): (r: Display)
    ensures forall q :: q in r <==> q in d || q in cells
    ensures forall q | q in cells :: r[q] == symbol
    ensures forall q | q in d && q !in cells :: r[q] == d[q]
    decreases |cells|
  {
    if cells == [] then d else PaintAll(d[cells[0] := symbol], cells[1..], symbol)
  }

  /** The speed button (searchAlgorithmInterface.js:99-104): the next speed, and after the fastest the slowest with the direction flipped. */
  function PressSpeed<E>(pl: Player<E>): (r: Player<E>)
    requires Inv(pl)
    ensures Inv(r) && r.index == pl.index && r.history == pl.history && r.display == pl.display && r.running == pl.running
    ensures pl.speedIndex < |Speeds| - 1 ==> r.speedIndex == pl.speedIndex + 1 && r.reverse == pl.reverse
    ensures pl.speedIndex == |Speeds| - 1 ==> r.speedIndex == 0 && r.reverse == !pl.reverse
  {
    var i := pl.speedIndex + 1;
    if i == |Speeds| then pl.(speedIndex := 0, reverse := !pl.reverse) else pl.(speedIndex := i)
  }

  /** Four presses of the speed button come back to the same speed with the direction flipped. */
  lemma SpeedCycle<E>(pl: Player<E>)
    requires Inv(pl)
    ensures PressSpeed(PressSpeed(PressSpeed(PressSpeed(pl)))) == pl.(reverse := !pl.reverse)
  {
  }

  // ---------------------------------------------------------------------
  // The source's undo entries: repaint the cells with one symbol.
  // ---------------------------------------------------------------------

  datatype Repaint = Repaint(cells: seq<Position>, symbol: Symbol)

  /**
   * `#showShortestPath` (searchAlgorithmInterface.js:171-184): paint the
   * direct route; its undo entry paints the same cells as visited.
   */
  function ShowShortestPath(pl: Player<Repaint>): (r: Player<Repaint>)
    ensures r.display == PaintAll(pl.display, pl.direct, Path)
    ensures r.history == pl.history + [Repaint(pl.direct, Visited)]
    ensures r.index == pl.index && r.trace == pl.trace && r.direct == pl.direct && r.running == pl.running
  {
    pl.(display := PaintAll(pl.display, pl.direct, Path), history := pl.history + [Repaint(pl.direct, Visited)])
  }

  /**
   * `#showVisitedCell` (searchAlgorithmInterface.js:149-169): show the next
   * cell of the trace as visited, or after the last one the direct route,
   * or nothing once everything is shown. The undo entry of the last trace
   * cell repaints it as the goal, of any other as empty.
   */
  function ShowVisitedCell(pl: Player<Repaint>): (r: Player<Repaint>)
    requires Inv(pl)
    ensures Inv(r) && r.trace == pl.trace && r.direct == pl.direct && r.running == pl.running
    ensures r.speedIndex == pl.speedIndex && r.reverse == pl.reverse
    ensures pl.index == |pl.trace| ==> r == pl
    ensures pl.index < |pl.trace| ==> r.index == pl.index + 1 && r.history[..pl.index] == pl.history
    ensures pl.index + 1 < |pl.trace| ==> r.display == pl.display[pl.trace[pl.index + 1] := Visited]
    ensures pl.index + 1 == |pl.trace| ==> r.display == PaintAll(pl.display, pl.direct, Path)
  {
    var i := pl.index + 1;
    if i > |pl.trace| then pl
    else if i == |pl.trace| then ShowShortestPath(pl.(index := i))
    else
      var p := pl.trace[i];
      var undoSymbol := if i == |pl.trace| - 1 then Goal else Empty;
      pl.(index := i, display := pl.display[p := Visited], history := pl.history + [Repaint([p], undoSymbol)])
  }

  /** `#undoSearchStep` (searchAlgorithmInterface.js:139-147): nothing without history, else drop a step and run its undo entry. */
  function Undo(pl: Player<Repaint>): (r: Player<Repaint>)
    requires Inv(pl)
    ensures Inv(r) && r.trace == pl.trace && r.direct == pl.direct && r.running == pl.running
    ensures r.speedIndex == pl.speedIndex && r.reverse == pl.reverse
    ensures pl.index == 0 ==> r == pl
    ensures pl.index > 0 ==> r.index == pl.index - 1 && r.history == pl.history[..pl.index - 1]
    ensures pl.index > 0 ==> var e := pl.history[pl.index - 1]; r.display == PaintAll(pl.display, e.cells, e.symbol)
  {
    if |pl.history| == 0 then pl
    else
      var e := pl.history[|pl.history| - 1];
      pl.(index := pl.index - 1, history := pl.history[..|pl.history| - 1], display := PaintAll(pl.display, e.cells, e.symbol))
  }

  /**
   * One run of `autoPlay` (searchAlgorithmInterface.js:186-203) without the
   * timer: a step backward or forward, then stop at either end. Backward it
   * pops the history without checking for an empty one, which the source
   * does not survive: that is `None`.
   */
  function Tick(pl: Player<Repaint>): (r: Option<Player<Repaint>>)
    requires Inv(pl)
    ensures r.None? <==> pl.reverse && pl.index == 0
    ensures r.Some? ==> Inv(r.value) && r.value.trace == pl.trace && r.value.reverse == pl.reverse
    ensures r.Some? && pl.reverse ==> r.value.index == pl.index - 1
    ensures r.Some? && !pl.reverse ==> r.value.index == if pl.index < |pl.trace| then pl.index + 1 else pl.index
    ensures r.Some? ==> (r.value.running <==> pl.running && 0 < r.value.index < |pl.trace|)
  {
    if pl.reverse && |pl.history| == 0 then None
    else
      var s := if pl.reverse then Undo(pl) else ShowVisitedCell(pl);
      var stop := s.index == |s.trace| || s.index == 0;
      Some(if stop then s.(running := false) else s)
  }

  /**
   * A forward step and its undo give back the player, provided the cell
   * it reveals showed what the undo entry repaints: empty, or the goal for
   * the last cell of the trace.
   */
  lemma UndoVisitedStep(pl: Player<Repaint>)
    requires Inv(pl) && pl.index + 1 < |pl.trace|
    requires var p := pl.trace[pl.index + 1];
      p in pl.display && pl.display[p] == if pl.index + 1 == |pl.trace| - 1 then Goal else Empty
    ensures Undo(ShowVisitedCell(pl)) == pl
  {
    var p := pl.trace[pl.index + 1];
    var s := ShowVisitedCell(pl);
    assert s.history[pl.index] == Repaint([p], pl.display[p]);
    assert Undo(s).display == pl.display;
  }

  /**
   * Revealing the route and undoing it leaves the start cell, which the
   * trace never paints, shown as visited: with the trace and route both
   * [s, g], two steps forward and one back turn s from the start symbol
   * into a visited cell.
   */
  lemma UndoRouteRepaintsStart()
    ensures var s, g := (0, 0), (0, 1);
      var pl := Player([s, g], [s, g], 0, [], map[s := Start, g := Goal], false, 0, false);
      var one := ShowVisitedCell(pl);
      && one.display[s] == Start
      && Undo(ShowVisitedCell(one)).display[s] == Visited
      && Undo(ShowVisitedCell(one)).index == one.index
  {
  }

  /**
   * When no goal is reachable the trace does not end at a goal, yet the
   * undo entry of its last cell repaints it as one: with the trace
   * [(0, 0), (0, 1)] and no route, a step forward and back leaves (0, 1)
   * shown as the goal where it was empty.
   */
  lemma UndoLastCellShowsGoal()
    ensures var s, c := (0, 0), (0, 1);
      var pl := Player([s, c], [], 0, [], map[s := Start, c := Empty], false, 0, false);
      Undo(ShowVisitedCell(pl)).display[c] == Goal
  {
  }

  // ---------------------------------------------------------------------
  // Undo entries that restore what each painted cell showed before.
  // ---------------------------------------------------------------------

  /** One painted cell and what it showed before, if anything. */
  datatype Edit = Edit(cell: Position, prior: Option<Symbol>)

  function Get(d: Display, p: Position): Option<Symbol> {
    if p in d then Some(d[p]) else None
  }

  /** Put one edit back. */
  function Put(d: Display, e: Edit): (r: Display)
    ensures Get(r, e.cell) == e.prior
    ensures forall q | q != e.cell :: Get(r, q) == Get(d, q)
  {
    if e.prior.Some? then d[e.cell := e.prior.value] else d - {e.cell}
  }

  /** Paint `cells` with `symbol` as `PaintAll` does, recording one edit per paint, in order. */
  function Record(d: Display, cells: seq<Position>, symbol: Symbol): (r: (Display, seq<Edit>))
    ensures r.0 == PaintAll(d, cells, symbol)
    ensures |r.1| == |cells| && forall i | 0 <= i < |cells| :: r.1[i].cell == cells[i]
    decreases |cells|
  {
    if cells == [] then (d, [])
    else
      var rest := Record(d[cells[0] := symbol], cells[1..], symbol);
      (rest.0, [Edit(cells[0], Get(d, cells[0]))] + rest.1)
  }

  /** Put the edits back, the latest first. */
  function Restore(d: Display, edits: seq<Edit>): Display
    decreases |edits|
  {
    if edits == [] then d else Put(Restore(d, edits[1..]), edits[0])
  }

  /** Restoring the recorded edits undoes the painting exactly. */
  lemma {:induction false} RestoreRecord(d: Display, cells: seq<Position>, symbol: Symbol)
    ensures var r := Record(d, cells, symbol); Restore(r.0, r.1) == d
    decreases |cells|
  {
    if cells != [] {
      var c := cells[0];
      var rest := Record(d[c := symbol], cells[1..], symbol);
      RestoreRecord(d[c := symbol], cells[1..], symbol);
      var r := Record(d, cells, symbol);
      assert r.1[1..] == rest.1;
      assert Restore(r.0, r.1[1..]) == d[c := symbol];
      var back := Put(d[c := symbol], Edit(c, Get(d, c)));
      assert forall q :: Get(back, q) == Get(d, q);
      SameGets(back, d);
    }
  }

  /** Two displays that agree on every lookup are equal. */
  lemma SameGets(a: Display, b: Display)
    requires forall q :: Get(a, q) == Get(b, q)
    ensures a == b
  {
    assert forall q :: q in a <==> q in b by {
      forall q ensures q in a <==> q in b {
        assert Get(a, q).Some? == (q in a) && Get(b, q).Some? == (q in b);
      }
    }
    forall q | q in a ensures a[q] == b[q] {
      assert Get(a, q) == Get(b, q);
    }
  }

  /**
   * `#showShortestPath` with an undo entry that remembers what the route's
   * cells showed.
   */
  function RevealRoute(pl: Player<seq<Edit>>): (r: Player<seq<Edit>>)
    ensures r.display == PaintAll(pl.display, pl.direct, Path)
    ensures |r.history| == |pl.history| + 1 && r.history[..|pl.history|] == pl.history
    ensures r.index == pl.index && r.trace == pl.trace && r.direct == pl.direct && r.running == pl.running
    ensures Restore(r.display, r.history[|pl.history|]) == pl.display
  {
    var rec := Record(pl.display, pl.direct, Path);
    RestoreRecord(pl.display, pl.direct, Path);
    assert (pl.history + [rec.1])[..|pl.history|] == pl.history;
    pl.(display := rec.0, history := pl.history + [rec.1])
  }

  /** `#showVisitedCell` with undo entries that remember what each painted cell showed. */
  function Forward(pl: Player<seq<Edit>>): (r: Player<seq<Edit>>)
    requires Inv(pl)
    ensures Inv(r) && r.trace == pl.trace && r.direct == pl.direct && r.running == pl.running
    ensures r.speedIndex == pl.speedIndex && r.reverse == pl.reverse
    ensures pl.index == |pl.trace| ==> r == pl
    ensures pl.index < |pl.trace| ==> r.index == pl.index + 1 && r.history[..pl.index] == pl.history
    ensures pl.index + 1 < |pl.trace| ==> r.display == pl.display[pl.trace[pl.index + 1] := Visited]
    ensures pl.index + 1 == |pl.trace| ==> r.display == PaintAll(pl.display, pl.direct, Path)
    ensures pl.index < |pl.trace| ==> Restore(r.display, r.history[pl.index]) == pl.display
  {
    var i := pl.index + 1;
    if i > |pl.trace| then pl
    else if i == |pl.trace| then RevealRoute(pl.(index := i))
    else
      var p := pl.trace[i];
      var rec := Record(pl.display, [p], Visited);
      RestoreRecord(pl.display, [p], Visited);
      assert rec.0 == pl.display[p := Visited];
      assert (pl.history + [rec.1])[..pl.index] == pl.history;
      pl.(index := i, display := rec.0, history := pl.history + [rec.1])
  }

  /** `#undoSearchStep` restoring what the step's cells showed before. */
  function Back(pl: Player<seq<Edit>>): (r: Player<seq<Edit>>)
    requires Inv(pl)
    ensures Inv(r) && r.trace == pl.trace && r.direct == pl.direct && r.running == pl.running
    ensures r.speedIndex == pl.speedIndex && r.reverse == pl.reverse
    ensures pl.index == 0 ==> r == pl
    ensures pl.index > 0 ==> r.index == pl.index - 1 && r.history == pl.history[..pl.index - 1]
    ensures pl.index > 0 ==> r.display == Restore(pl.display, pl.history[pl.index - 1])
  {
    if |pl.history| == 0 then pl
    else
      var e := pl.history[|pl.history| - 1];
      pl.(index := pl.index - 1, history := pl.history[..|pl.history| - 1], display := Restore(pl.display, e))
  }

  /** A step forward and a step back give back exactly the player before them. */
  lemma BackUndoesForward(pl: Player<seq<Edit>>)
    requires Inv(pl) && pl.index < |pl.trace|
    ensures Back(Forward(pl)) == pl
  {
  }

  /** n steps forward. */
  function ForwardN(pl: Player<seq<Edit>>, n: nat): (r: Player<seq<Edit>>)
    requires Inv(pl)
    ensures Inv(r) && r.trace == pl.trace
    ensures pl.index + n <= |pl.trace| ==> r.index == pl.index + n
  {
    if n == 0 then pl else Forward(ForwardN(pl, n - 1))
  }

  /** n steps back. */
  function BackN(pl: Player<seq<Edit>>, n: nat): (r: Player<seq<Edit>>)
    requires Inv(pl)
    ensures Inv(r) && r.trace == pl.trace
    decreases n
  {
    if n == 0 then pl else BackN(Back(pl), n - 1)
  }

  /**
   * Stepping forward any number of times, up to the end of the trace and the
   * route, and back as many times gives back the player before, every cell
   * showing what it showed.
   */
  lemma {:induction false} PlaybackRoundTrip(pl: Player<seq<Edit>>, n: nat)
    requires Inv(pl) && pl.index + n <= |pl.trace|
    ensures BackN(ForwardN(pl, n), n) == pl
    decreases n
  {
    if n > 0 {
      var m := n - 1;
      PlaybackRoundTrip(pl, m);
      RoundTripStep(pl, m + 1);
    }
  }

  /** Undoing the last of n forward steps leaves n - 1 steps to undo. */
  lemma RoundTripStep(pl: Player<seq<Edit>>, n: nat)
    requires Inv(pl) && 0 < n && pl.index + n <= |pl.trace|
    ensures BackN(ForwardN(pl, n), n) == BackN(ForwardN(pl, n - 1), n - 1)
  {
    var before := ForwardN(pl, n - 1);
    assert ForwardN(pl, n) == Forward(before);
    BackUndoesForward(before);
  }

  /**
   * With restoring undo entries the two sequences of the source's
   * counterexamples end where they started: the start cell shows the start
   * again, and a last cell that is not a goal shows empty again.
   */
  lemma BackRestoresStartAndLastCell()
    ensures var s, g := (0, 0), (0, 1);
      var pl := Player([s, g], [s, g], 0, [], map[s := Start, g := Goal], false, 0, false);
      var one := Forward(pl);
      Back(Forward(one)).display == one.display
    ensures var s, c := (0, 0), (0, 1);
      var pl := Player([s, c], [], 0, [], map[s := Start, c := Empty], false, 0, false);
      Back(Forward(pl)).display == pl.display
  {
    var s, g := (0, 0), (0, 1);
    var pl := Player([s, g], [s, g], 0, [], map[s := Start, g := Goal], false, 0, false);
    BackUndoesForward(Forward(pl));
    var pl' := Player([s, g], [], 0, [], map[s := Start, g := Empty], false, 0, false);
    BackUndoesForward(pl');
  }

  /** `autoPlay` without the timer, stepping back with the guarded undo. */
  function Step(pl: Player<seq<Edit>>): (r: Player<seq<Edit>>)
    requires Inv(pl)
    ensures Inv(r) && r.trace == pl.trace && r.reverse == pl.reverse
    ensures pl.reverse ==> r.index == if pl.index > 0 then pl.index - 1 else 0
    ensures !pl.reverse ==> r.index == if pl.index < |pl.trace| then pl.index + 1 else pl.index
    ensures r.running <==> pl.running && 0 < r.index < |pl.trace|
  {
    var s := if pl.reverse then Back(pl) else Forward(pl);
    var stop := s.index == |s.trace| || s.index == 0;
    if stop then s.(running := false) else s
  }

  // ---------------------------------------------------------------------
  // The scrub buttons and the autoplay timer.
  // ---------------------------------------------------------------------

  /**
   * A press of one of the four scrub buttons, or the autoplay timer firing.
   * The buttons are those of `scrubBtnsCallBack` once a start is set and a
   * search computed.
   */
  datatype Event = BackButton | SpeedButton | PlayButton | ForwardButton | Timer

  /** The player and the number of autoplay runs the timer has scheduled. */
  datatype Session<E> = Session(player: Player<E>, pending: nat)

  /** The playback controls: the position in the trace, the autoplay switches and the scheduled runs. */
  datatype Controls = Controls(index: int, running: bool, speedIndex: int, reverse: bool, pending: nat)

  function ControlsOf<E>(se: Session<E>): Controls {
    Controls(se.player.index, se.player.running, se.player.speedIndex, se.player.reverse, se.pending)
  }

  function Lift<E>(r: Option<Session<E>>): Option<Controls> {
    if r.None? then None else Some(ControlsOf(r.value))
  }

  /**
   * One autoplay run on the controls of a trace of length n: a step back
   * or forward, playing stops at either end, and another run is scheduled
   * while it plays. A step back with nothing shown fails unless `guarded`.
   */
  function TickControls(c: Controls, n: int, guarded: bool): Option<Controls> {
    if c.reverse && c.index <= 0 && !guarded then None
    else
      var i := if c.reverse then (if c.index > 0 then c.index - 1 else c.index)
               else if c.index < n then c.index + 1 else c.index;
      var run := c.running && 0 < i < n;
      Some(c.(index := i, running := run, pending := c.pending + if run then 1 else 0))
  }

  /**
   * How one event moves the controls of a trace of length n: the buttons
   * of `scrubBtnsCallBack` (searchAlgorithmInterface.js:85-136) and the
   * timer of `autoPlay` (searchAlgorithmInterface.js:186-203). The back and
   * forward buttons only pause a running playback, the play button does
   * nothing playing backward with nothing shown, and a scheduled run still
   * happens after a pause. The `guarded` controls are the corrected ones: a
   * pause also cancels the scheduled run, and a step back with nothing
   * shown does nothing.
   */
  function Next(c: Controls, n: int, e: Event, guarded: bool): Option<Controls> {
    if guarded && Pauses(c, e) then Some(c.(running := false, pending := 0))
    else
    match e
    case BackButton =>
      Some(if c.running then c.(running := false) else if c.index > 0 then c.(index := c.index - 1) else c)
    case SpeedButton =>
      Some(if c.speedIndex + 1 == |Speeds| then c.(speedIndex := 0, reverse := !c.reverse) else c.(speedIndex := c.speedIndex + 1))
    case ForwardButton =>
      Some(if c.running then c.(running := false) else if c.index < n then c.(index := c.index + 1) else c)
    case PlayButton =>
      if c.reverse && c.index == 0 then Some(c)
      else if c.running then Some(c.(running := false))
      else TickControls(c.(running := true), n, guarded)
    case Timer =>
      if c.pending == 0 then Some(c) else TickControls(c.(pending := c.pending - 1), n, guarded)
  }

  /** The events that pause a running playback: back, forward, and play unless it is ignored. */
  predicate Pauses(c: Controls, e: Event) {
    c.running && (e == BackButton || e == ForwardButton || (e == PlayButton && !(c.reverse && c.index == 0)))
  }

  /** Where the source's controls do not fail and the event is no pause, the guarded ones move the same way. */
  lemma NextGuardedAgrees(c: Controls, n: int, e: Event)
    requires Next(c, n, e, false).Some? && !Pauses(c, e)
    ensures Next(c, n, e, true) == Next(c, n, e, false)
  {
  }

  /** A pause stops playing in both; only the guarded one also cancels the scheduled run. */
  lemma NextPauseCancels(c: Controls, n: int, e: Event)
    requires Pauses(c, e)
    ensures Next(c, n, e, false) == Some(c.(running := false))
    ensures Next(c, n, e, true) == Some(c.(running := false, pending := 0))
  {
  }

  /**
   * In the source, a run scheduled before a pause still moves the playback
   * when it fires, whenever there is room to move.
   */
  lemma NextRunsAfterPause(c: Controls, n: int, e: Event)
    requires Pauses(c, e) && c.pending > 0
    requires if c.reverse then c.index > 0 else c.index < n
    ensures var paused := Next(c, n, e, false).value;
      && !paused.running
      && Next(paused, n, Timer, false).Some?
      && Next(paused, n, Timer, false).value.index != c.index
  {
  }

  /** Exactly one run is scheduled while playing and none while stopped. */
  predicate Quiet(c: Controls) {
    c.pending == if c.running then 1 else 0
  }

  /** The guarded controls keep the schedule exact. */
  lemma NextGuardedQuiet(c: Controls, n: int, e: Event)
    requires Quiet(c)
    ensures Next(c, n, e, true).Some? && Quiet(Next(c, n, e, true).value)
  {
  }

  /** The guarded controls never fail. */
  lemma NextGuardedTotal(c: Controls, n: int, e: Event)
    ensures Next(c, n, e, true).Some?
  {
  }

  /** The source's controls fail only on a step back with nothing shown, by the play button or the timer. */
  lemma NextFails(c: Controls, n: int, e: Event)
    requires 0 <= c.index
    ensures Next(c, n, e, false).None? <==> e == Timer && c.pending > 0 && c.reverse && c.index == 0
  {
  }

  /** A sequence of events on the controls, failing as soon as one fails. */
  function RunControls(c: Controls, n: int, es: seq<Event>, guarded: bool): Option<Controls>
    decreases |es|
  {
    if es == [] then Some(c)
    else
      var next := Next(c, n, es[0], guarded);
      if next.None? then None else RunControls(next.value, n, es[1..], guarded)
  }

  /**
   * `scrubBtnsCallBack` and the timer as the source has them. A scheduled
   * run still happens after a pause, and a backward run pops the history
   * unchecked, so a pause, a step back to the beginning and the pending run
   * fail: that is `None`.
   */
  function Handle(se: Session<Repaint>, e: Event): (r: Option<Session<Repaint>>)
    requires Inv(se.player)
    ensures Lift(r) == Next(ControlsOf(se), |se.player.trace|, e, false)
    ensures r.Some? ==> Inv(r.value.player) && r.value.player.trace == se.player.trace
  {
    var pl := se.player;
    match e
    case BackButton =>
      Some(if pl.running then Session(pl.(running := false), se.pending) else Session(Undo(pl), se.pending))
    case SpeedButton =>
      Some(Session(PressSpeed(pl), se.pending))
    case ForwardButton =>
      Some(if pl.running then Session(pl.(running := false), se.pending) else Session(ShowVisitedCell(pl), se.pending))
    case PlayButton =>
      if pl.reverse && |pl.history| == 0 then Some(se)
      else if pl.running then Some(Session(pl.(running := false), se.pending))
      else AutoPlay(pl.(running := true), se.pending)
    case Timer =>
      if se.pending == 0 then Some(se) else AutoPlay(pl, se.pending - 1)
  }

  /** `autoPlay` as the source has it: one run, and another scheduled while playing. */
  function AutoPlay(pl: Player<Repaint>, pending: nat): (r: Option<Session<Repaint>>)
    requires Inv(pl)
    ensures Lift(r) == TickControls(ControlsOf(Session(pl, pending)), |pl.trace|, false)
    ensures r.Some? ==> Inv(r.value.player) && r.value.player.trace == pl.trace
  {
    var t := Tick(pl);
    if t.None? then None
    else Some(Session(t.value, pending + if t.value.running then 1 else 0))
  }

  /** A sequence of events from the source's handlers, failing as soon as one fails. */
  function Run(se: Session<Repaint>, es: seq<Event>): (r: Option<Session<Repaint>>)
    requires Inv(se.player)
    ensures r.Some? ==> Inv(r.value.player) && r.value.player.trace == se.player.trace
    decreases |es|
  {
    if es == [] then Some(se)
    else
      var next := Handle(se, es[0]);
      if next.None? then None else Run(next.value, es[1..])
  }

  /** The source's handlers move the controls as `Next` does, over any sequence of events. */
  lemma {:induction false} RunMovesControls(se: Session<Repaint>, es: seq<Event>)
    requires Inv(se.player)
    ensures Lift(Run(se, es)) == RunControls(ControlsOf(se), |se.player.trace|, es, false)
    decreases |es|
  {
    if es != [] {
      var next := Handle(se, es[0]);
      if next.Some? {
        RunMovesControls(next.value, es[1..]);
      }
    }
  }

  /**
   * The handlers with restoring undo entries, a pause that cancels the
   * scheduled run (as `clearTimeout` would) and a guarded backward step.
   */
  function HandleFixed(se: Session<seq<Edit>>, e: Event): (r: Session<seq<Edit>>)
    requires Inv(se.player)
    ensures Next(ControlsOf(se), |se.player.trace|, e, true) == Some(ControlsOf(r))
    ensures Inv(r.player) && r.player.trace == se.player.trace
  {
    var pl := se.player;
    assert |pl.history| == pl.index;
    match e
    case BackButton =>
      if pl.running then Session(pl.(running := false), 0) else Session(Back(pl), se.pending)
    case SpeedButton =>
      Session(PressSpeed(pl), se.pending)
    case ForwardButton =>
      if pl.running then Session(pl.(running := false), 0) else Session(Forward(pl), se.pending)
    case PlayButton =>
      if pl.reverse && |pl.history| == 0 then se
      else if pl.running then Session(pl.(running := false), 0)
      else AutoPlayFixed(pl.(running := true), se.pending)
    case Timer =>
      if se.pending == 0 then se else AutoPlayFixed(pl, se.pending - 1)
  }

  /** `autoPlay` with the guarded backward step: one run, and another scheduled while playing. */
  function AutoPlayFixed(pl: Player<seq<Edit>>, pending: nat): (r: Session<seq<Edit>>)
    requires Inv(pl)
    ensures TickControls(ControlsOf(Session(pl, pending)), |pl.trace|, true) == Some(ControlsOf(r))
    ensures Inv(r.player) && r.player.trace == pl.trace
  {
    var t := Step(pl);
    Session(t, pending + if t.running then 1 else 0)
  }

  /** A sequence of events with the corrected handlers. */
  function RunFixed(se: Session<seq<Edit>>, es: seq<Event>): (r: Session<seq<Edit>>)
    requires Inv(se.player)
    ensures Inv(r.player) && r.player.trace == se.player.trace
    decreases |es|
  {
    if es == [] then se else RunFixed(HandleFixed(se, es[0]), es[1..])
  }

  /** The corrected handlers move the controls as the guarded `Next` does, over any sequence of events. */
  lemma {:induction false} RunFixedMovesControls(se: Session<seq<Edit>>, es: seq<Event>)
    requires Inv(se.player)
    ensures RunControls(ControlsOf(se), |se.player.trace|, es, true) == Some(ControlsOf(RunFixed(se, es)))
    decreases |es|
  {
    if es != [] {
      RunFixedMovesControls(HandleFixed(se, es[0]), es[1..]);
    }
  }

  /**
   * With the corrected handlers a pause stops the playback where it is, and
   * a scheduled run that fires afterwards changes nothing.
   */
  lemma TickAfterPause(se: Session<seq<Edit>>, e: Event)
    requires Inv(se.player) && Pauses(ControlsOf(se), e)
    ensures var r := HandleFixed(se, e);
      && r.player == se.player.(running := false)
      && HandleFixed(r, Timer) == r
  {
    assert |se.player.history| == se.player.index;
  }

  /** The corrected handlers keep exactly one run scheduled while playing and none while stopped. */
  lemma {:induction false} RunFixedQuiet(se: Session<seq<Edit>>, es: seq<Event>)
    requires Inv(se.player) && Quiet(ControlsOf(se))
    ensures Quiet(ControlsOf(RunFixed(se, es)))
    decreases |es|
  {
    if es != [] {
      NextGuardedQuiet(ControlsOf(se), |se.player.trace|, es[0]);
      RunFixedQuiet(HandleFixed(se, es[0]), es[1..]);
    }
  }

  /**
   * The events of the failing run: two steps forward, four speed presses
   * to play backward, play (one step back and a run scheduled), pause, one
   * step back to the beginning, and the scheduled run.
   */
  function PendingRunEvents(): seq<Event> {
    [ForwardButton, ForwardButton, SpeedButton, SpeedButton, SpeedButton, SpeedButton,
     PlayButton, BackButton, BackButton, Timer]
  }

  /** On the controls of a three-cell trace the source's controls fail at the scheduled run. */
  lemma PendingRunSource()
    ensures RunControls(Controls(0, false, 0, false, 0), 3, PendingRunEvents(), false) == None
  {
    var es := PendingRunEvents();
    assert RunControls(Controls(0, false, 0, true, 1), 3, es[9..], false) == None;
    assert RunControls(Controls(1, false, 0, true, 1), 3, es[8..], false) == None;
    assert RunControls(Controls(1, true, 0, true, 1), 3, es[7..], false) == None;
    assert RunControls(Controls(2, false, 0, true, 0), 3, es[6..], false) == None;
    assert RunControls(Controls(2, false, 3, false, 0), 3, es[5..], false) == None;
    assert RunControls(Controls(2, false, 2, false, 0), 3, es[4..], false) == None;
    assert RunControls(Controls(2, false, 1, false, 0), 3, es[3..], false) == None;
    assert RunControls(Controls(2, false, 0, false, 0), 3, es[2..], false) == None;
    assert RunControls(Controls(1, false, 0, false, 0), 3, es[1..], false) == None;
  }

  /** With the guarded controls the same events end stopped at the beginning with nothing scheduled. */
  lemma PendingRunGuarded()
    ensures RunControls(Controls(0, false, 0, false, 0), 3, PendingRunEvents(), true)
      == Some(Controls(0, false, 0, true, 0))
  {
    var es := PendingRunEvents();
    var end := Some(Controls(0, false, 0, true, 0));
    assert RunControls(Controls(0, false, 0, true, 0), 3, es[9..], true) == end;
    assert RunControls(Controls(1, false, 0, true, 0), 3, es[8..], true) == end;
    assert RunControls(Controls(1, true, 0, true, 1), 3, es[7..], true) == end;
    assert RunControls(Controls(2, false, 0, true, 0), 3, es[6..], true) == end;
    assert RunControls(Controls(2, false, 3, false, 0), 3, es[5..], true) == end;
    assert RunControls(Controls(2, false, 2, false, 0), 3, es[4..], true) == end;
    assert RunControls(Controls(2, false, 1, false, 0), 3, es[3..], true) == end;
    assert RunControls(Controls(2, false, 0, false, 0), 3, es[2..], true) == end;
    assert RunControls(Controls(1, false, 0, false, 0), 3, es[1..], true) == end;
  }

  /** From a fresh player on a three-cell trace, the source's handlers fail on the scheduled run. */
  lemma PendingRunFails()
    ensures var pl := Player([(0, 0), (0, 1), (0, 2)], [], 0, [], map[], false, 0, false);
      Run(Session(pl, 0), PendingRunEvents()) == None
  {
    var pl := Player([(0, 0), (0, 1), (0, 2)], [], 0, [], map[], false, 0, false);
    PendingRunSource();
    RunMovesControls(Session(pl, 0), PendingRunEvents());
  }

  /**
   * The same events with the corrected handlers end with nothing shown,
   * playing backward, stopped, and nothing scheduled.
   */
  lemma PendingRunFixed()
    ensures var pl := Player([(0, 0), (0, 1), (0, 2)], [], 0, [], map[], false, 0, false);
      var r := RunFixed(Session(pl, 0), PendingRunEvents());
      r.player.index == 0 && r.player.reverse && !r.player.running && r.pending == 0
  {
    var pl := Player([(0, 0), (0, 1), (0, 2)], [], 0, [], map[], false, 0, false);
    PendingRunGuarded();
    RunFixedMovesControls(Session(pl, 0), PendingRunEvents());
  }
}
