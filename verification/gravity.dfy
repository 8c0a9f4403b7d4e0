/**
 * Gravity (src/Board.jsx `unresolve`, `resolve`, `step`): one step clears a
 * full bottom row, marks every occupied cell unresolved and then visits
 * the cells, the queue's first and the board's next, moving each visited
 * shape that can still fall down by one row.
 *
 * The passes visit the positions present when each phase begins, reading
 * each position's current cell as they go.
 */
module Gravity {
  import opened Wrappers
  import opened Cells
  import opened Grids
  import Shapes
  import opened Boards

  /**
   * Starts a gravity pass: every occupied cell of the queue and the board
   * becomes unresolved, every empty one resolved, and nothing else about
   * any cell or shape changes.
   */
  function Unresolve(b: Board): (r: Board)
    ensures r.width == b.width && r.height == b.height && r.shapes == b.shapes
    ensures MaskOf(r.cells) == MaskOf(b.cells) && MaskOf(r.queue) == MaskOf(b.queue)
    ensures ResolvedIffEmpty(r.cells) && ResolvedIffEmpty(r.queue)
    ensures forall x, y :: Get(b.cells, x, y).Some? ==>
              Get(r.cells, x, y).value.(resolved := Get(b.cells, x, y).value.resolved) == Get(b.cells, x, y).value
    ensures forall x, y :: Get(b.queue, x, y).Some? ==>
              Get(r.queue, x, y).value.(resolved := Get(b.queue, x, y).value.resolved) == Get(b.queue, x, y).value
  {
    b.(queue := Grids.Unresolve(b.queue), cells := Grids.Unresolve(b.cells))
  }

  /** Unresolving twice is unresolving once. */
  lemma UnresolveIdempotent(b: Board)
    ensures Unresolve(Unresolve(b)) == Unresolve(b)
  {
    Grids.UnresolveIdempotent(b.queue);
    Grids.UnresolveIdempotent(b.cells);
  }

  /** Whether the pass skips a cell: there is none, it is resolved or empty, or its shape is not on the board. */
  predicate Skipped(b: Board, c: Option<Cell>)
  {
    c.None? || c.value.resolved || c.value.IsEmpty() || c.value.owner.value !in b.shapes
  }

  /**
   * The queue phase: every visited cell that is not skipped has its shape
   * moved down (whether or not the move succeeds), which clears the flag.
   */
  function QueuePass(b: Board, ps: seq<Slot>, flag: bool): (r: (Board, bool))
    ensures r.0.width == b.width && r.0.height == b.height
    ensures r.0.shapes.Keys == b.shapes.Keys
    ensures r.1 ==> flag
    ensures r.1 ==> r.0 == b
    decreases |ps|
  {
    if |ps| == 0 then (b, flag)
    else
      var c := Get(b.queue, ps[0].0, ps[0].1);
      if Skipped(b, c) then QueuePass(b, ps[1..], flag)
      else QueuePass(Boards.Move(b, c.value.owner.value, Down).board, ps[1..], false)
  }

  /**
   * The board phase: every visited cell that is not skipped has its shape
   * moved down if it is active, which clears the flag, and resolved where
   * it is otherwise.
   */
  function CellsPass(b: Board, ps: seq<Slot>, flag: bool): (r: (Board, bool))
    ensures r.0.width == b.width && r.0.height == b.height
    ensures r.0.shapes.Keys == b.shapes.Keys
    ensures r.1 ==> flag
    ensures r.1 ==> forall o :: o in b.shapes ==> r.0.shapes[o].x == b.shapes[o].x && r.0.shapes[o].y == b.shapes[o].y
    decreases |ps|
  {
    if |ps| == 0 then (b, flag)
    else
      var c := Get(b.cells, ps[0].0, ps[0].1);
      if Skipped(b, c) then CellsPass(b, ps[1..], flag)
      else
        var id := c.value.owner.value;
        if IsActiveShape(b, id) then CellsPass(Boards.Move(b, id, Down).board, ps[1..], false)
        else CellsPass(Settle(b, id), ps[1..], flag)
  }

  /**
   * The queue phase keeps the flag exactly when it skips every visited
   * cell, and then changes nothing.
   */
  lemma {:induction false} QueuePassFlag(b: Board, ps: seq<Slot>, flag: bool)
    ensures var r := QueuePass(b, ps, flag);
            r.1 <==> flag && forall j :: 0 <= j < |ps| ==> Skipped(b, Get(b.queue, ps[j].0, ps[j].1))
    ensures (forall j :: 0 <= j < |ps| ==> Skipped(b, Get(b.queue, ps[j].0, ps[j].1))) ==> QueuePass(b, ps, flag) == (b, flag)
    decreases |ps|
  {
    if |ps| > 0 {
      assert forall j :: 1 <= j < |ps| ==> ps[1..][j - 1] == ps[j];
      var c := Get(b.queue, ps[0].0, ps[0].1);
      if Skipped(b, c) {
        QueuePassFlag(b, ps[1..], flag);
      }
    }
  }

  /**
   * The board phase keeps the flag exactly when every visited cell was
   * quiet to begin with; when it skips every one it changes nothing.
   */
  lemma {:induction false} CellsPassFlag(b: Board, ps: seq<Slot>, flag: bool)
    ensures CellsPass(b, ps, flag).1 <==> flag && AllQuiet(b, ps)
    ensures (forall j :: 0 <= j < |ps| ==> Skipped(b, Get(b.cells, ps[j].0, ps[j].1))) ==> CellsPass(b, ps, flag) == (b, flag)
    decreases |ps|
  {
    if |ps| > 0 {
      AllQuietCons(b, ps);
      assert forall j :: 1 <= j < |ps| ==> ps[1..][j - 1] == ps[j];
      var c := Get(b.cells, ps[0].0, ps[0].1);
      if Skipped(b, c) {
        CellsPassFlag(b, ps[1..], flag);
      } else if !IsActiveShape(b, c.value.owner.value) {
        var id := c.value.owner.value;
        SettleKeepsQuiet(b, id, ps[1..]);
        CellsPassFlag(Settle(b, id), ps[1..], flag);
      }
    }
  }

  /** Every cell visited at the positions `ps` is quiet. */
  ghost predicate AllQuiet(b: Board, ps: seq<Slot>)
  {
    forall j :: 0 <= j < |ps| ==> Quiet(b, Get(b.cells, ps[j].0, ps[j].1))
  }

  lemma AllQuietCons(b: Board, ps: seq<Slot>)
    requires |ps| > 0
    ensures AllQuiet(b, ps) <==> Quiet(b, Get(b.cells, ps[0].0, ps[0].1)) && AllQuiet(b, ps[1..])
  {
    assert forall j :: 1 <= j < |ps| ==> ps[1..][j - 1] == ps[j];
  }

  /** A cell is quiet when the pass skips it or its shape cannot fall. */
  predicate Quiet(b: Board, c: Option<Cell>)
  {
    Skipped(b, c) || !IsActiveShape(b, c.value.owner.value)
  }

  /** Two positions hold cells that differ at most in their resolved flag. */
  predicate Alike(c: Option<Cell>, d: Option<Cell>)
  {
    c.Some? == d.Some? && (c.Some? ==> c.value.(resolved := d.value.resolved) == d.value)
  }

  /**
   * Whether a shape can fall depends on where the cells are and whose they
   * are, not on which of them are resolved.
   */
  lemma ActiveIgnoresResolved(b1: Board, b2: Board, o: ShapeId)
    requires o in b1.shapes && o in b2.shapes && b1.height == b2.height
    requires b1.shapes[o].y == b2.shapes[o].y && |b1.shapes[o].cells| == |b2.shapes[o].cells|
    requires forall x, y :: Alike(Get(b1.shapes[o].cells, x, y), Get(b2.shapes[o].cells, x, y))
    requires forall x, y :: Alike(CellAt(b1, x, y), CellAt(b2, x, y))
    ensures IsActiveShape(b1, o) == IsActiveShape(b2, o)
  {
    CollidesCarries(b1, b2, o);
    CollidesCarries(b2, b1, o);
  }

  /** A collision of shape `o` on `b1` is one on `b2`, where cells differ at most in being resolved. */
  lemma CollidesCarries(b1: Board, b2: Board, o: ShapeId)
    requires o in b1.shapes && o in b2.shapes
    requires forall x, y :: Alike(Get(b1.shapes[o].cells, x, y), Get(b2.shapes[o].cells, x, y))
    requires forall x, y :: Alike(CellAt(b1, x, y), CellAt(b2, x, y))
    ensures Collides(b1, o, 0, 1) ==> Collides(b2, o, 0, 1)
  {
    CollidesSpec(b1, o, 0, 1);
    CollidesSpec(b2, o, 0, 1);
    var g1, g2 := b1.shapes[o].cells, b2.shapes[o].cells;
    if Collides(b1, o, 0, 1) {
      var x, y :| Get(g1, x, y).Some? && Blocks(b1, o, Get(g1, x, y).value, 0, 1);
      assert Alike(Get(g1, x, y), Get(g2, x, y));
      var c := Get(g1, x, y).value;
      assert Alike(CellAt(b1, c.x, c.y + 1), CellAt(b2, c.x, c.y + 1));
    }
  }

  /** Resolving a shape changes no shape's ability to fall. */
  lemma SettleKeepsActive(b: Board, id: ShapeId, o: ShapeId)
    requires id in b.shapes && o in b.shapes
    ensures IsActiveShape(Settle(b, id), o) == IsActiveShape(b, o)
  {
    var r := Settle(b, id);
    forall x, y
      ensures Alike(CellAt(r, x, y), CellAt(b, x, y))
    {
      SettleAt(b, id, x, y);
    }
    if o == id {
      assert r.shapes[o].cells == MapCells(b.shapes[o].cells, Cells.Resolve);
    }
    ActiveIgnoresResolved(r, b, o);
  }

  /**
   * Resolving a shape that cannot fall leaves every position exactly as
   * quiet as it was: its own cells become skipped, and were quiet already.
   */
  lemma SettleKeepsQuiet(b: Board, id: ShapeId, ps: seq<Slot>)
    requires id in b.shapes && !IsActiveShape(b, id)
    ensures AllQuiet(Settle(b, id), ps) == AllQuiet(b, ps)
  {
    forall j | 0 <= j < |ps|
      ensures Quiet(Settle(b, id), Get(Settle(b, id).cells, ps[j].0, ps[j].1)) == Quiet(b, Get(b.cells, ps[j].0, ps[j].1))
    {
      SettleKeepsQuietAt(b, id, ps[j].0, ps[j].1);
    }
  }

  lemma SettleKeepsQuietAt(b: Board, id: ShapeId, x: int, y: int)
    requires id in b.shapes && !IsActiveShape(b, id)
    ensures Quiet(Settle(b, id), Get(Settle(b, id).cells, x, y)) == Quiet(b, Get(b.cells, x, y))
  {
    var r := Settle(b, id);
    assert r.cells == MapCells(b.cells, ResolveOwned(id));
    var c := Get(b.cells, x, y);
    if c.Some? && !c.value.IsEmpty() && c.value.owner != Some(id) && c.value.owner.value in b.shapes {
      SettleKeepsActive(b, id, c.value.owner.value);
    }
  }

  /**
   * One gravity pass over the queue and then the board. The flag it
   * returns says that no shape was moved, so that every shape is where it
   * was.
   */
  function Resolve(b: Board): (r: (Board, bool))
    ensures r.0.width == b.width && r.0.height == b.height
    ensures r.0.shapes.Keys == b.shapes.Keys
    ensures r.1 ==> forall o :: o in b.shapes ==> r.0.shapes[o].x == b.shapes[o].x && r.0.shapes[o].y == b.shapes[o].y
  {
    var q := QueuePass(b, Slots(b.queue), true);
    CellsPass(q.0, Slots(q.0.cells), q.1)
  }

  /**
   * A pass reports that nothing moved exactly when it skips every cell of
   * the queue and every cell of the board is quiet.
   */
  lemma ResolveFlag(b: Board)
    ensures Resolve(b).1 <==>
              (forall x, y :: Skipped(b, Get(b.queue, x, y))) && (forall x, y :: Quiet(b, Get(b.cells, x, y)))
  {
    var qs, cs := Slots(b.queue), Slots(b.cells);
    SlotsSpec(b.queue);
    SlotsSpec(b.cells);
    var q := QueuePass(b, qs, true);
    QueuePassFlag(b, qs, true);
    if forall x, y :: Skipped(b, Get(b.queue, x, y)) {
      assert q == (b, true);
      CellsPassFlag(b, cs, true);
      if !Resolve(b).1 {
        var j :| 0 <= j < |cs| && !Quiet(b, Get(b.cells, cs[j].0, cs[j].1));
      }
    } else {
      var x, y :| !Skipped(b, Get(b.queue, x, y));
      assert (x, y) in qs;
    }
  }

  /** The pass leaves a cell alone, or the cell is shape `id`'s. */
  predicate Lone(b: Board, id: ShapeId, c: Option<Cell>)
  {
    Skipped(b, c) || c.value.owner == Some(id)
  }

  /**
   * Once shape `id` has moved down, the pass skips every position that held
   * only its cells or cells it skipped: the shape's cells are resolved and
   * every other shape's cells are as they were.
   */
  lemma MovedLeavesSkipped(b: Board, id: ShapeId, x: int, y: int)
    requires Registered(b) && id in b.shapes && Boards.Move(b, id, Down).outcome != OutOfBounds
    requires Lone(b, id, Get(b.cells, x, y))
    ensures Skipped(Boards.Move(b, id, Down).board, Get(Boards.Move(b, id, Down).board.cells, x, y))
  {
    var m := Boards.Move(b, id, Down).board;
    if y >= 0 {
      assert CellAt(m, x, y) == Get(m.cells, x, y);
      var c := Get(m.cells, x, y);
      if c.Some? && !c.value.IsEmpty() && c.value.owner != Some(id) {
        MoveOthersAt(b, id, Down, c.value.owner.value, x, y);
      }
    }
  }

  /** The queue's counterpart of `MovedLeavesSkipped`: a queue row is a negative board row. */
  lemma QueueMovedLeavesSkipped(b: Board, id: ShapeId, x: int, qy: int)
    requires Registered(b) && id in b.shapes && Boards.Move(b, id, Down).outcome != OutOfBounds
    requires Lone(b, id, Get(b.queue, x, qy))
    ensures Skipped(Boards.Move(b, id, Down).board, Get(Boards.Move(b, id, Down).board.queue, x, qy))
  {
    MovedKeepsSkippedAt(b, id, x, qy - Height(b.queue));
    QueueSkippedVia(b, Boards.Move(b, id, Down).board, id, x, qy);
  }

  /** `MovedLeavesSkipped` at a board position read through `CellAt`, queue rows included. */
  lemma MovedKeepsSkippedAt(b: Board, id: ShapeId, x: int, y: int)
    requires Registered(b) && id in b.shapes && Boards.Move(b, id, Down).outcome != OutOfBounds
    ensures Lone(b, id, CellAt(b, x, y)) ==> Skipped(Boards.Move(b, id, Down).board, CellAt(Boards.Move(b, id, Down).board, x, y))
  {
    var m := Boards.Move(b, id, Down).board;
    var c := CellAt(m, x, y);
    if c.Some? && !c.value.IsEmpty() && c.value.owner != Some(id) {
      MoveOthersAt(b, id, Down, c.value.owner.value, x, y);
    }
  }

  /** A queue position is skipped after a redraw that keeps the queue's height when the board position it stands for is. */
  lemma QueueSkippedVia(b: Board, m: Board, id: ShapeId, x: int, qy: int)
    requires Height(m.queue) == Height(b.queue)
    requires Lone(b, id, Get(b.queue, x, qy))
    requires var y := qy - Height(b.queue); Lone(b, id, CellAt(b, x, y)) ==> Skipped(m, CellAt(m, x, y))
    ensures Skipped(m, Get(m.queue, x, qy))
  {
    if 0 <= qy {
      QueueCellAt(b, x, qy);
      QueueCellAt(m, x, qy);
    }
  }

  /**
   * A queue phase in which shape `id` is the only shape with a cell the
   * pass does not skip moves that shape down once, whether or not the move
   * is carried out, and clears the flag: the later visits find its cells
   * resolved, or, when the move was refused, repeat the same refusal.
   */
  lemma {:induction false} QueuePassMovesOnce(b: Board, ps: seq<Slot>, flag: bool, id: ShapeId)
    requires Registered(b) && id in b.shapes
    requires forall j :: 0 <= j < |ps| ==> Lone(b, id, Get(b.queue, ps[j].0, ps[j].1))
    requires exists j :: 0 <= j < |ps| && !Skipped(b, Get(b.queue, ps[j].0, ps[j].1))
    ensures QueuePass(b, ps, flag) == (Boards.Move(b, id, Down).board, false)
    decreases |ps|
  {
    assert forall j :: 1 <= j < |ps| ==> ps[1..][j - 1] == ps[j];
    var c := Get(b.queue, ps[0].0, ps[0].1);
    var r := Boards.Move(b, id, Down);
    if Skipped(b, c) {
      QueuePassMovesOnce(b, ps[1..], flag, id);
    } else if r.outcome == OutOfBounds {
      if exists j :: 0 <= j < |ps[1..]| && !Skipped(b, Get(b.queue, ps[1..][j].0, ps[1..][j].1)) {
        QueuePassMovesOnce(b, ps[1..], false, id);
      } else {
        QueuePassFlag(b, ps[1..], false);
      }
    } else {
      forall j | 0 <= j < |ps[1..]|
        ensures Skipped(r.board, Get(r.board.queue, ps[1..][j].0, ps[1..][j].1))
      {
        QueueMovedLeavesSkipped(b, id, ps[j + 1].0, ps[j + 1].1);
      }
      QueuePassFlag(r.board, ps[1..], false);
    }
  }

  /**
   * A board phase in which shape `id`, active and within the columns, is
   * the only shape with a cell the pass does not skip moves it down by
   * exactly one row, in its column, and clears the flag.
   */
  lemma {:induction false} CellsPassFalls(b: Board, ps: seq<Slot>, flag: bool, id: ShapeId)
    requires Registered(b) && id in b.shapes && IsActiveShape(b, id) && InBounds(b, b.shapes[id], 0)
    requires forall j :: 0 <= j < |ps| ==> Lone(b, id, Get(b.cells, ps[j].0, ps[j].1))
    requires exists j :: 0 <= j < |ps| && !Skipped(b, Get(b.cells, ps[j].0, ps[j].1))
    ensures var r := CellsPass(b, ps, flag);
            !r.1 && r.0.shapes[id].x == b.shapes[id].x && r.0.shapes[id].y == b.shapes[id].y + 1
    decreases |ps|
  {
    var c := Get(b.cells, ps[0].0, ps[0].1);
    if Skipped(b, c) {
      var j :| 0 <= j < |ps| && !Skipped(b, Get(b.cells, ps[j].0, ps[j].1));
      assert ps[1..][j - 1] == ps[j];
      CellsPassFalls(b, ps[1..], flag, id);
    } else {
      ActiveIffMovesDown(b, id);
      var m := Boards.Move(b, id, Down).board;
      forall j | 0 <= j < |ps[1..]|
        ensures Skipped(m, Get(m.cells, ps[1..][j].0, ps[1..][j].1))
      {
        MovedLeavesSkipped(b, id, ps[j + 1].0, ps[j + 1].1);
      }
      CellsPassFlag(m, ps[1..], false);
    }
  }

  /**
   * A pass over a board whose queue holds nothing to move and on which
   * shape `id`, active and within the columns, is the only shape with a
   * cell left to visit moves that shape down by exactly one row.
   */
  lemma ResolveMovesLoneShape(b: Board, id: ShapeId)
    requires Registered(b) && id in b.shapes && IsActiveShape(b, id) && InBounds(b, b.shapes[id], 0)
    requires forall x, y :: Skipped(b, Get(b.queue, x, y))
    requires forall x, y :: Lone(b, id, Get(b.cells, x, y))
    requires exists x, y :: !Skipped(b, Get(b.cells, x, y))
    ensures !Resolve(b).1
    ensures Resolve(b).0.shapes[id].x == b.shapes[id].x && Resolve(b).0.shapes[id].y == b.shapes[id].y + 1
  {
    QueuePassFlag(b, Slots(b.queue), true);
    assert QueuePass(b, Slots(b.queue), true) == (b, true);
    SlotsSpec(b.cells);
    var x, y :| !Skipped(b, Get(b.cells, x, y));
    assert (x, y) in Slots(b.cells);
    CellsPassFalls(b, Slots(b.cells), true, id);
  }

  /**
   * A pass over a board on which shape `id`, active and within the columns,
   * is the only shape with a cell left to visit, some of them in the queue
   * (a shape just added, say), moves that shape down by exactly one row, in
   * its column, and returns false; the board phase then finds its cells
   * resolved.
   */
  lemma ResolveMovesQueuedShape(b: Board, id: ShapeId)
    requires Registered(b) && id in b.shapes && IsActiveShape(b, id) && InBounds(b, b.shapes[id], 0)
    requires forall x, y :: Lone(b, id, Get(b.queue, x, y))
    requires exists x, y :: !Skipped(b, Get(b.queue, x, y))
    requires forall x, y :: Lone(b, id, Get(b.cells, x, y))
    ensures !Resolve(b).1
    ensures Resolve(b).0.shapes[id].x == b.shapes[id].x && Resolve(b).0.shapes[id].y == b.shapes[id].y + 1
  {
    SlotsSpec(b.queue);
    var x, y :| !Skipped(b, Get(b.queue, x, y));
    assert (x, y) in Slots(b.queue);
    QueuePassMovesOnce(b, Slots(b.queue), true, id);
    ActiveIffMovesDown(b, id);
    var m := Boards.Move(b, id, Down).board;
    forall x, y
      ensures Skipped(m, Get(m.cells, x, y))
    {
      MovedLeavesSkipped(b, id, x, y);
    }
    CellsPassFlag(m, Slots(m.cells), false);
  }

  /**
   * Clears a full bottom row: when every cell of the board's last row is
   * occupied, the rows move down by one, the last row dropping out, and a
   * row of fresh cells comes in on top; otherwise nothing changes.
   */
  function ClearFullRow(b: Board): (r: Board)
    ensures r.width == b.width && r.height == b.height && r.queue == b.queue && r.shapes == b.shapes
    ensures !IsFull(Last(b.cells)) ==> r == b
    ensures IsFull(Last(b.cells)) ==>
              && Height(r.cells) == Height(b.cells)
              && (forall i :: 1 <= i < |b.cells| ==> r.cells[i] == b.cells[i - 1])
              && (forall k :: 0 <= k < |r.cells[0]| ==> r.cells[0][k] == Some(New(k, 0)))
  {
    if IsFull(Last(b.cells)) then b.(cells := Shift(b.cells).0) else b
  }

  /** One tick of the game: clear a full bottom row, then run a gravity pass from scratch. */
  function Step(b: Board): (r: Board)
    ensures r.width == b.width && r.height == b.height
    ensures r.shapes.Keys == b.shapes.Keys
  {
    Resolve(Unresolve(ClearFullRow(b))).0
  }

  // ---------------------------------------------------------------------
  // A settled board is left alone

  /** Every present cell of the queue and of the board is resolved or empty. */
  ghost predicate Settled(b: Board)
  {
    && (forall x, y :: Get(b.queue, x, y).Some? ==> Get(b.queue, x, y).value.resolved || Get(b.queue, x, y).value.IsEmpty())
    && (forall x, y :: Get(b.cells, x, y).Some? ==> Get(b.cells, x, y).value.resolved || Get(b.cells, x, y).value.IsEmpty())
  }

  lemma {:induction false} QueuePassSettled(b: Board, ps: seq<Slot>, flag: bool)
    requires Settled(b)
    ensures QueuePass(b, ps, flag) == (b, flag)
    decreases |ps|
  {
    if |ps| > 0 {
      QueuePassSettled(b, ps[1..], flag);
    }
  }

  lemma {:induction false} CellsPassSettled(b: Board, ps: seq<Slot>, flag: bool)
    requires Settled(b)
    ensures CellsPass(b, ps, flag) == (b, flag)
    decreases |ps|
  {
    if |ps| > 0 {
      CellsPassSettled(b, ps[1..], flag);
    }
  }

  /** On a settled board a gravity pass changes nothing and reports that nothing moved. */
  lemma SettledIsFixpoint(b: Board)
    requires Settled(b)
    ensures Resolve(b) == (b, true)
  {
    QueuePassSettled(b, Slots(b.queue), true);
    CellsPassSettled(b, Slots(b.cells), true);
  }

  /**
   * A board whose grid has a cell in every slot and with no occupied cell
   * anywhere is settled once unresolved, so a step only unresolves it.
   */
  lemma EmptyBoardStep(b: Board)
    requires forall x, y :: 0 <= y < |b.cells| && 0 <= x < |b.cells[y]| ==> Get(b.cells, x, y).Some?
    requires forall x, y :: Get(b.cells, x, y).Some? ==> Get(b.cells, x, y).value.IsEmpty()
    requires forall x, y :: Get(b.queue, x, y).Some? ==> Get(b.queue, x, y).value.IsEmpty()
    ensures Step(b) == Unresolve(b)
  {
    assert !IsFull(Last(b.cells)) by {
      if |b.cells| > 0 && Width(Last(b.cells)) > 0 {
        assert Get(Last(b.cells), 0, 0) == Get(b.cells, 0, |b.cells| - 1);
      }
    }
    var u := Unresolve(b);
    assert Settled(u);
    SettledIsFixpoint(u);
  }

  // ---------------------------------------------------------------------
  // A pass moves every shape down by at most one row

  /**
   * Relative to the board `b0` a pass started from: the registry is
   * consistent and has the same shapes, every shape keeps its column, and
   * a shape that has fallen has fallen one row and has all its cells
   * resolved (so the pass skips it from then on).
   */
  ghost predicate FellAtMostOne(b0: Board, b: Board)
  {
    && Registered(b)
    && b.shapes.Keys == b0.shapes.Keys
    && forall o :: o in b.shapes ==>
         && b.shapes[o].x == b0.shapes[o].x
         && (b.shapes[o].y == b0.shapes[o].y || (b.shapes[o].y == b0.shapes[o].y + 1 && OwnedResolved(b, o)))
  }

  /** Moving down a shape that still has an unresolved cell keeps the bound. */
  lemma MoveDownStep(b0: Board, b: Board, id: ShapeId)
    requires FellAtMostOne(b0, b) && id in b.shapes && !OwnedResolved(b, id)
    ensures FellAtMostOne(b0, Boards.Move(b, id, Down).board)
  {
    var r := Boards.Move(b, id, Down).board;
    MoveKeepsRegistered(b, id, Down);
    assert b.shapes[id].y == b0.shapes[id].y;
    forall o | o in r.shapes
      ensures r.shapes[o].x == b0.shapes[o].x
      ensures r.shapes[o].y == b0.shapes[o].y || (r.shapes[o].y == b0.shapes[o].y + 1 && OwnedResolved(r, o))
    {
      if o != id && b.shapes[o].y != b0.shapes[o].y {
        MoveKeepsOthersResolved(b, id, Down, o);
      }
    }
  }

  /** Resolving a shape in place keeps the bound. */
  lemma SettleStep(b0: Board, b: Board, id: ShapeId)
    requires FellAtMostOne(b0, b) && id in b.shapes
    ensures FellAtMostOne(b0, Settle(b, id))
  {
    var r := Settle(b, id);
    forall o | o in b.shapes && o != id && OwnedResolved(b, o)
      ensures OwnedResolved(r, o)
    {
      forall x, y | CellAt(r, x, y).Some? && CellAt(r, x, y).value.owner == Some(o)
        ensures CellAt(r, x, y).value.resolved
      {
        SettleAt(b, id, x, y);
      }
    }
  }

  lemma {:induction false} QueuePassStep(b0: Board, b: Board, ps: seq<Slot>, flag: bool)
    requires FellAtMostOne(b0, b)
    ensures FellAtMostOne(b0, QueuePass(b, ps, flag).0)
    decreases |ps|
  {
    if |ps| > 0 {
      var p := ps[0];
      var c := Get(b.queue, p.0, p.1);
      if Skipped(b, c) {
        QueuePassStep(b0, b, ps[1..], flag);
      } else {
        QueueMoveStep(b0, b, p.0, p.1);
        QueuePassStep(b0, Boards.Move(b, c.value.owner.value, Down).board, ps[1..], false);
      }
    }
  }

  /** Moving down the shape of a queue cell the pass visits keeps the bound. */
  lemma QueueMoveStep(b0: Board, b: Board, x: int, y: int)
    requires FellAtMostOne(b0, b) && !Skipped(b, Get(b.queue, x, y))
    ensures FellAtMostOne(b0, Boards.Move(b, Get(b.queue, x, y).value.owner.value, Down).board)
  {
    var c := Get(b.queue, x, y);
    QueueCellAt(b, x, y);
    assert CellAt(b, x, y - Height(b.queue)) == c;
    MoveDownStep(b0, b, c.value.owner.value);
  }

  lemma {:induction false} CellsPassStep(b0: Board, b: Board, ps: seq<Slot>, flag: bool)
    requires FellAtMostOne(b0, b)
    ensures FellAtMostOne(b0, CellsPass(b, ps, flag).0)
    decreases |ps|
  {
    if |ps| > 0 {
      var p := ps[0];
      var c := Get(b.cells, p.0, p.1);
      if Skipped(b, c) {
        CellsPassStep(b0, b, ps[1..], flag);
      } else {
        var id := c.value.owner.value;
        if IsActiveShape(b, id) {
          assert CellAt(b, p.0, p.1) == c;
          MoveDownStep(b0, b, id);
          CellsPassStep(b0, Boards.Move(b, id, Down).board, ps[1..], false);
        } else {
          SettleStep(b0, b, id);
          CellsPassStep(b0, Settle(b, id), ps[1..], flag);
        }
      }
    }
  }

  /**
   * A gravity pass over a consistent registry keeps it consistent, keeps
   * every shape in its column and moves each one down by at most one row.
   */
  lemma ResolveFallsAtMostOneRow(b: Board)
    requires Registered(b)
    ensures var r := Resolve(b).0;
            && Registered(r)
            && r.shapes.Keys == b.shapes.Keys
            && forall o :: o in b.shapes ==>
                 r.shapes[o].x == b.shapes[o].x && b.shapes[o].y <= r.shapes[o].y <= b.shapes[o].y + 1
  {
    var q := QueuePass(b, Slots(b.queue), true);
    QueuePassStep(b, b, Slots(b.queue), true);
    CellsPassStep(b, q.0, Slots(q.0.cells), q.1);
  }

  /**
   * A step on a board without a full bottom row, whose queue holds no cell
   * of a registered shape and whose only registered shape with a cell on
   * the board is `id`, active and within the columns, moves that shape
   * down by exactly one row, in its column.
   */
  lemma StepMovesLoneShape(b: Board, id: ShapeId)
    requires Registered(b) && id in b.shapes && IsActiveShape(b, id) && InBounds(b, b.shapes[id], 0)
    requires !IsFull(Last(b.cells))
    requires forall x, y :: Get(b.queue, x, y).Some? && !Get(b.queue, x, y).value.IsEmpty() ==>
                              Get(b.queue, x, y).value.owner.value !in b.shapes
    requires forall x, y ::
               Get(b.cells, x, y).Some? && !Get(b.cells, x, y).value.IsEmpty() && Get(b.cells, x, y).value.owner.value in b.shapes ==>
                 Get(b.cells, x, y).value.owner == Some(id)
    requires exists x, y :: Get(b.cells, x, y).Some? && Get(b.cells, x, y).value.owner == Some(id)
    ensures Step(b).shapes[id].x == b.shapes[id].x && Step(b).shapes[id].y == b.shapes[id].y + 1
  {
    var u := Unresolve(b);
    assert ClearFullRow(b) == b;
    UnresolveKeepsActive(b, id);
    UnresolveKeepsLone(b, id);
    ResolveMovesLoneShape(u, id);
  }

  /**
   * A step over a board without a full bottom row whose only registered
   * shape with a cell in the queue or on the board is `id`, active, within
   * the columns and with a cell in the queue (as `Boards.AddShape` leaves a
   * new shape), moves that shape down by exactly one row, in its column.
   */
  lemma StepMovesQueuedShape(b: Board, id: ShapeId)
    requires Registered(b) && id in b.shapes && IsActiveShape(b, id) && InBounds(b, b.shapes[id], 0)
    requires !IsFull(Last(b.cells))
    requires forall x, y ::
               Get(b.queue, x, y).Some? && !Get(b.queue, x, y).value.IsEmpty() && Get(b.queue, x, y).value.owner.value in b.shapes ==>
                 Get(b.queue, x, y).value.owner == Some(id)
    requires forall x, y ::
               Get(b.cells, x, y).Some? && !Get(b.cells, x, y).value.IsEmpty() && Get(b.cells, x, y).value.owner.value in b.shapes ==>
                 Get(b.cells, x, y).value.owner == Some(id)
    requires exists x, y :: Get(b.queue, x, y).Some? && Get(b.queue, x, y).value.owner == Some(id)
    ensures Step(b).shapes[id].x == b.shapes[id].x && Step(b).shapes[id].y == b.shapes[id].y + 1
  {
    var u := Unresolve(b);
    assert ClearFullRow(b) == b;
    UnresolveKeepsActive(b, id);
    UnresolveKeepsQueued(b, id);
    ResolveMovesQueuedShape(u, id);
  }

  /**
   * Once the board is unresolved, every occupied queue or board cell of a
   * registered shape is one the pass visits, and some queue cell is.
   */
  lemma UnresolveKeepsQueued(b: Board, id: ShapeId)
    requires id in b.shapes
    requires forall x, y ::
               Get(b.queue, x, y).Some? && !Get(b.queue, x, y).value.IsEmpty() && Get(b.queue, x, y).value.owner.value in b.shapes ==>
                 Get(b.queue, x, y).value.owner == Some(id)
    requires forall x, y ::
               Get(b.cells, x, y).Some? && !Get(b.cells, x, y).value.IsEmpty() && Get(b.cells, x, y).value.owner.value in b.shapes ==>
                 Get(b.cells, x, y).value.owner == Some(id)
    requires exists x, y :: Get(b.queue, x, y).Some? && Get(b.queue, x, y).value.owner == Some(id)
    ensures var u := Unresolve(b);
            && (forall x, y :: Lone(u, id, Get(u.queue, x, y)))
            && (forall x, y :: Lone(u, id, Get(u.cells, x, y)))
            && (exists x, y :: !Skipped(u, Get(u.queue, x, y)))
  {
    var u := Unresolve(b);
    SameMask(u.cells, b.cells);
    SameMask(u.queue, b.queue);
    var x, y :| Get(b.queue, x, y).Some? && Get(b.queue, x, y).value.owner == Some(id);
    assert !Skipped(u, Get(u.queue, x, y));
  }

  /** Unresolving the board changes no shape's ability to fall. */
  lemma UnresolveKeepsActive(b: Board, id: ShapeId)
    requires id in b.shapes
    ensures IsActiveShape(Unresolve(b), id) == IsActiveShape(b, id)
  {
    var u := Unresolve(b);
    SameMask(u.cells, b.cells);
    SameMask(u.queue, b.queue);
    forall x, y
      ensures Alike(CellAt(u, x, y), CellAt(b, x, y))
    {
    }
    ActiveIgnoresResolved(u, b, id);
  }

  /**
   * Once the board is unresolved, the pass skips every queue cell that is
   * empty or unregistered, and every occupied board cell of a registered
   * shape is one it visits.
   */
  lemma UnresolveKeepsLone(b: Board, id: ShapeId)
    requires id in b.shapes
    requires forall x, y :: Get(b.queue, x, y).Some? && !Get(b.queue, x, y).value.IsEmpty() ==>
                              Get(b.queue, x, y).value.owner.value !in b.shapes
    requires forall x, y ::
               Get(b.cells, x, y).Some? && !Get(b.cells, x, y).value.IsEmpty() && Get(b.cells, x, y).value.owner.value in b.shapes ==>
                 Get(b.cells, x, y).value.owner == Some(id)
    requires exists x, y :: Get(b.cells, x, y).Some? && Get(b.cells, x, y).value.owner == Some(id)
    ensures var u := Unresolve(b);
            && (forall x, y :: Skipped(u, Get(u.queue, x, y)))
            && (forall x, y :: Lone(u, id, Get(u.cells, x, y)))
            && (exists x, y :: !Skipped(u, Get(u.cells, x, y)))
  {
    var u := Unresolve(b);
    SameMask(u.cells, b.cells);
    SameMask(u.queue, b.queue);
    var x, y :| Get(b.cells, x, y).Some? && Get(b.cells, x, y).value.owner == Some(id);
    assert !Skipped(u, Get(u.cells, x, y));
  }

  /** A step over a consistent registry keeps it consistent and moves each shape down by at most one row, in its column. */
  lemma StepFallsAtMostOneRow(b: Board)
    requires Registered(b)
    ensures var r := Step(b);
            && Registered(r)
            && forall o :: o in b.shapes ==>
                 r.shapes[o].x == b.shapes[o].x && b.shapes[o].y <= r.shapes[o].y <= b.shapes[o].y + 1
  {
    ResolveFallsAtMostOneRow(Unresolve(ClearFullRow(b)));
  }
}
