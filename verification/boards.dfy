/**
 * The rules engine (src/Board.jsx): a board of `height` rows of `width`
 * cells, a queue grid above it that negative rows address, and the shapes
 * on it.
 *
 * Cells refer to their shape by identity; `shapes` maps each identity to
 * the shape itself. Resolving a shape resolves the cells the board holds
 * for it, since in the source those are the shape's own cell objects.
 */
module Boards {
  import opened Wrappers
  import opened Cells
  import opened Grids
  import Shapes

  type Shape = Shapes.Shape

  datatype Board = Board(width: int, height: int, cells: Grid, queue: Grid, shapes: map<ShapeId, Shape>)

  /**
   * A new board: `h` rows of `w` fresh cells, each at its own position
   * (no rows at all when either dimension is not positive), an empty queue
   * and no shapes.
   */
  function Init(w: int, h: int): (b: Board)
    ensures b.width == w && b.height == h && b.queue == [] && b.shapes == map[]
    ensures Rectangular(b.cells)
    ensures Height(b.cells) == (if w > 0 && h > 0 then h else 0)
    ensures w > 0 && h > 0 ==> Width(b.cells) == w
    ensures forall x, y :: Get(b.cells, x, y) == if 0 <= x < w && 0 <= y < h then Some(New(x, y)) else None
  {
    var cells := if w > 0 && h > 0 then seq(h, i requires 0 <= i < h => seq(w, k requires 0 <= k < w => Some(New(k, i)))) else [];
    var r := Board(w, h, cells, [], map[]);
    assert forall x, y :: 0 <= x < w && 0 <= y < h ==> Get(cells, x, y) == Some(New(x, y));
    r
  }

  // ---------------------------------------------------------------------
  // Reading and writing through board coordinates

  /**
   * The cell at board position (x, y): row y of the board for y >= 0, and
   * row `queue height + y` of the queue for a negative y.
   */
  function CellAt(b: Board, x: int, y: int): Option<Cell>
  {
    if y < 0 then Get(b.queue, x, Height(b.queue) + y) else Get(b.cells, x, y)
  }

  /** Whether a write at board position (x, y) is stored anywhere: the column and the routed row are not negative. */
  predicate Writable(b: Board, x: int, y: int)
  {
    x >= 0 && (y >= 0 || Height(b.queue) + y >= 0)
  }

  /** A position no write can reach holds no cell. */
  lemma NotWritableAbsent(b: Board, x: int, y: int)
    ensures !Writable(b, x, y) ==> CellAt(b, x, y) == None
  {
  }

  /** Every queue row read through the grid is a negative board row. */
  lemma QueueCellAt(b: Board, x: int, qy: int)
    requires 0 <= qy
    ensures Get(b.queue, x, qy) == if qy < Height(b.queue) then CellAt(b, x, qy - Height(b.queue)) else None
  {
  }

  /**
   * Writes `c` at board position (x, y), routed as `CellAt` reads. It reads
   * back at that position (when the position is writable), every other
   * position reads as before, and the queue keeps its height.
   */
  function Put(b: Board, x: int, y: int, c: Option<Cell>): (r: Board)
    ensures r.width == b.width && r.height == b.height && r.shapes == b.shapes
    ensures Height(r.queue) == Height(b.queue)
    ensures forall px, py :: CellAt(r, px, py) ==
              if px == x && py == y && Writable(b, x, y) then c else CellAt(b, px, py)
  {
    if y < 0 then b.(queue := Set(b.queue, x, Height(b.queue) + y, c))
    else b.(cells := Set(b.cells, x, y, c))
  }

  /** Performs the writes in order. */
  function PutAll(b: Board, ws: seq<Write>): (r: Board)
    ensures r.width == b.width && r.height == b.height && r.shapes == b.shapes
    ensures Height(r.queue) == Height(b.queue)
    decreases |ws|
  {
    if |ws| == 0 then b
    else
      var w := ws[|ws| - 1];
      Put(PutAll(b, ws[..|ws| - 1]), w.x, w.y, w.c)
  }

  /** A batch of writes reads back as its last write to each writable position. */
  lemma {:induction false} CellAtPutAll(b: Board, ws: seq<Write>, x: int, y: int)
    ensures CellAt(PutAll(b, ws), x, y) ==
              if Writable(b, x, y) then LastWrite(ws, x, y, CellAt(b, x, y)) else CellAt(b, x, y)
    decreases |ws|
  {
    if |ws| > 0 {
      CellAtPutAll(b, ws[..|ws| - 1], x, y);
    }
  }

  /** When every write aimed at (x, y) stores `v`, the position reads `v` if any write hit it. */
  lemma PutAllUniform(b: Board, ws: seq<Write>, x: int, y: int, v: Option<Cell>)
    requires forall j :: 0 <= j < |ws| && ws[j].x == x && ws[j].y == y ==> ws[j].c == v
    ensures CellAt(PutAll(b, ws), x, y) ==
              if Writable(b, x, y) && exists j :: 0 <= j < |ws| && ws[j].x == x && ws[j].y == y then v
              else CellAt(b, x, y)
  {
    CellAtPutAll(b, ws, x, y);
    LastWriteUniform(ws, x, y, CellAt(b, x, y), v);
  }

  // ---------------------------------------------------------------------
  // Footprint bookkeeping

  /** Whether `m` switches on slot (k, i). */
  predicate InMask(m: Mask, k: int, i: int)
  {
    0 <= i < |m| && 0 <= k < |m[i]| && m[i][k]
  }

  /** A fresh cell for every slot the mask switches on, placed relative to (x, y). */
  function SchemeWrites(x: int, y: int, m: Mask): (ws: seq<Write>)
    ensures |ws| == |TrueSlots(m)|
    ensures forall j :: 0 <= j < |ws| ==>
              ws[j] == Write(x + TrueSlots(m)[j].0, y + TrueSlots(m)[j].1,
                             Some(New(x + TrueSlots(m)[j].0, y + TrueSlots(m)[j].1)))
  {
    var ps := TrueSlots(m);
    seq(|ps|, j requires 0 <= j < |ps| => Write(x + ps[j].0, y + ps[j].1, Some(New(x + ps[j].0, y + ps[j].1))))
  }

  /**
   * Empties the footprint of scheme `m` placed at (x, y): each writable
   * position the scheme covers gets a fresh cell at that position, and
   * every other position keeps its cell.
   */
  function DeleteScheme(b: Board, x: int, y: int, m: Mask): (r: Board)
    ensures r.width == b.width && r.height == b.height && r.shapes == b.shapes
    ensures Height(r.queue) == Height(b.queue)
    ensures forall px, py :: CellAt(r, px, py) ==
              if Writable(b, px, py) && InMask(m, px - x, py - y) then Some(New(px, py)) else CellAt(b, px, py)
  {
    DeleteSchemeSpec(b, x, y, m);
    PutAll(b, SchemeWrites(x, y, m))
  }

  lemma DeleteSchemeSpec(b: Board, x: int, y: int, m: Mask)
    ensures forall px, py :: CellAt(PutAll(b, SchemeWrites(x, y, m)), px, py) ==
              if Writable(b, px, py) && InMask(m, px - x, py - y) then Some(New(px, py)) else CellAt(b, px, py)
  {
    forall px, py
      ensures CellAt(PutAll(b, SchemeWrites(x, y, m)), px, py) ==
                if Writable(b, px, py) && InMask(m, px - x, py - y) then Some(New(px, py)) else CellAt(b, px, py)
    {
      DeleteSchemeAt(b, x, y, m, px, py);
    }
  }

  lemma DeleteSchemeAt(b: Board, x: int, y: int, m: Mask, px: int, py: int)
    ensures CellAt(PutAll(b, SchemeWrites(x, y, m)), px, py) ==
              if Writable(b, px, py) && InMask(m, px - x, py - y) then Some(New(px, py)) else CellAt(b, px, py)
  {
    var ws := SchemeWrites(x, y, m);
    PutAllUniform(b, ws, px, py, Some(New(px, py)));
    SchemeWritesHit(x, y, m, px, py);
  }

  /** Some write of the scheme lands on (px, py) exactly when the scheme covers that position. */
  lemma SchemeWritesHit(x: int, y: int, m: Mask, px: int, py: int)
    ensures (exists j :: 0 <= j < |SchemeWrites(x, y, m)| && SchemeWrites(x, y, m)[j].x == px && SchemeWrites(x, y, m)[j].y == py)
            <==> InMask(m, px - x, py - y)
  {
    var ws := SchemeWrites(x, y, m);
    var ps := TrueSlots(m);
    MaskSlots(m, px - x, py - y);
    if InMask(m, px - x, py - y) {
      var j :| 0 <= j < |ps| && ps[j] == (px - x, py - y);
      assert ws[j].x == px && ws[j].y == py;
    } else {
      forall j | 0 <= j < |ws|
        ensures !(ws[j].x == px && ws[j].y == py)
      {
        assert ps[j] in ps;
      }
    }
  }

  /** A slot is among a mask's positions exactly when the mask switches it on. */
  lemma MaskSlots(m: Mask, k: int, i: int)
    ensures (k, i) in TrueSlots(m) <==> InMask(m, k, i)
  {
    TrueSlotsFromSpec(m, 0);
    assert (k, i).0 == k && (k, i).1 == i;
  }

  /** A grid's mask switches on exactly the slots where the grid has a cell. */
  lemma MaskOfAt(g: Grid, k: int, i: int)
    ensures InMask(MaskOf(g), k, i) <==> Get(g, k, i).Some?
  {
  }

  /** The shape's cells, each written at the shape's origin plus its slot. */
  function CellWrites(s: Shape): (ws: seq<Write>)
    ensures |ws| == |Slots(s.cells)|
    ensures forall j :: 0 <= j < |ws| ==>
              ws[j] == Write(s.x + Slots(s.cells)[j].0, s.y + Slots(s.cells)[j].1,
                             Get(s.cells, Slots(s.cells)[j].0, Slots(s.cells)[j].1))
  {
    var ps := Slots(s.cells);
    seq(|ps|, j requires 0 <= j < |ps| => Write(s.x + ps[j].0, s.y + ps[j].1, Get(s.cells, ps[j].0, ps[j].1)))
  }

  /**
   * Writes the shape's cells onto the board at its origin: a writable
   * position over a present cell of the shape holds that cell, and every
   * other position keeps its cell.
   */
  function AddShapeCells(b: Board, s: Shape): (r: Board)
    ensures r.width == b.width && r.height == b.height && r.shapes == b.shapes
    ensures Height(r.queue) == Height(b.queue)
    ensures forall px, py :: CellAt(r, px, py) ==
              if Writable(b, px, py) && Get(s.cells, px - s.x, py - s.y).Some? then Get(s.cells, px - s.x, py - s.y)
              else CellAt(b, px, py)
  {
    AddShapeCellsSpec(b, s);
    PutAll(b, CellWrites(s))
  }

  lemma AddShapeCellsSpec(b: Board, s: Shape)
    ensures forall px, py :: CellAt(PutAll(b, CellWrites(s)), px, py) ==
              if Writable(b, px, py) && Get(s.cells, px - s.x, py - s.y).Some? then Get(s.cells, px - s.x, py - s.y)
              else CellAt(b, px, py)
  {
    var ws := CellWrites(s);
    var ps := Slots(s.cells);
    SlotsSpec(s.cells);
    forall px, py
      ensures CellAt(PutAll(b, ws), px, py) ==
                if Writable(b, px, py) && Get(s.cells, px - s.x, py - s.y).Some? then Get(s.cells, px - s.x, py - s.y)
                else CellAt(b, px, py)
    {
      var v := Get(s.cells, px - s.x, py - s.y);
      forall j | 0 <= j < |ws| && ws[j].x == px && ws[j].y == py
        ensures ws[j].c == v
      {
        assert ps[j].0 == px - s.x && ps[j].1 == py - s.y;
      }
      PutAllUniform(b, ws, px, py, v);
      if v.Some? {
        assert (px - s.x, py - s.y) in ps;
        var j :| 0 <= j < |ps| && ps[j] == (px - s.x, py - s.y);
        assert ws[j].x == px && ws[j].y == py;
      } else {
        forall j | 0 <= j < |ws|
          ensures !(ws[j].x == px && ws[j].y == py)
        {
          assert ps[j] in ps;
        }
      }
    }
  }

  /**
   * What the board does when shape `s` has moved away from origin (ox, oy):
   * the shape's cells at its new footprint, fresh cells over the rest of its
   * old footprint, and every other position unchanged.
   */
  function ShapeMoved(b: Board, s: Shape, ox: int, oy: int): (r: Board)
    ensures r.width == b.width && r.height == b.height && r.shapes == b.shapes
    ensures Height(r.queue) == Height(b.queue)
    ensures forall px, py :: CellAt(r, px, py) ==
              if Writable(b, px, py) && Get(s.cells, px - s.x, py - s.y).Some? then Get(s.cells, px - s.x, py - s.y)
              else if Writable(b, px, py) && Get(s.cells, px - ox, py - oy).Some? then Some(New(px, py))
              else CellAt(b, px, py)
  {
    ShapeMovedSpec(b, s, ox, oy);
    AddShapeCells(DeleteScheme(b, ox, oy, MaskOf(s.cells)), s)
  }

  lemma ShapeMovedSpec(b: Board, s: Shape, ox: int, oy: int)
    ensures forall px, py :: CellAt(AddShapeCells(DeleteScheme(b, ox, oy, MaskOf(s.cells)), s), px, py) ==
              if Writable(b, px, py) && Get(s.cells, px - s.x, py - s.y).Some? then Get(s.cells, px - s.x, py - s.y)
              else if Writable(b, px, py) && Get(s.cells, px - ox, py - oy).Some? then Some(New(px, py))
              else CellAt(b, px, py)
  {
    forall px, py {
      ShapeMovedPoint(b, s, ox, oy, px, py);
    }
  }

  lemma ShapeMovedPoint(b: Board, s: Shape, ox: int, oy: int, px: int, py: int)
    ensures CellAt(AddShapeCells(DeleteScheme(b, ox, oy, MaskOf(s.cells)), s), px, py) ==
              if Writable(b, px, py) && Get(s.cells, px - s.x, py - s.y).Some? then Get(s.cells, px - s.x, py - s.y)
              else if Writable(b, px, py) && Get(s.cells, px - ox, py - oy).Some? then Some(New(px, py))
              else CellAt(b, px, py)
  {
    var d := DeleteScheme(b, ox, oy, MaskOf(s.cells));
    var newly := Writable(b, px, py) && Get(s.cells, px - s.x, py - s.y).Some?;
    var vacated := Writable(b, px, py) && Get(s.cells, px - ox, py - oy).Some?;
    assert CellAt(d, px, py) == if vacated then Some(New(px, py)) else CellAt(b, px, py) by {
      MaskOfAt(s.cells, px - ox, py - oy);
    }
    AddShapeCellsAt(d, s, px, py);
    assert Writable(d, px, py) == Writable(b, px, py);
  }

  lemma AddShapeCellsAt(b: Board, s: Shape, px: int, py: int)
    ensures CellAt(AddShapeCells(b, s), px, py) ==
              if Writable(b, px, py) && Get(s.cells, px - s.x, py - s.y).Some? then Get(s.cells, px - s.x, py - s.y)
              else CellAt(b, px, py)
  {
  }

  /** Enqueues a shape: the queue is cleared and then holds exactly the shape's cells, and the shape is registered. */
  function AddShape(b: Board, s: Shape): (r: Board)
    ensures r.width == b.width && r.height == b.height && r.cells == b.cells
    ensures r.shapes == b.shapes[s.id := s]
    ensures Shapes.WellFormed(s) ==> forall x, y :: Get(r.queue, x, y) == Get(s.cells, x, y)
  {
    b.(queue := Grids.AddShape(Grids.Clear(b.queue), s.cells, s.x, s.y), shapes := b.shapes[s.id := s])
  }

  // ---------------------------------------------------------------------
  // Resolving a shape

  function ResolveOwned(id: ShapeId): Cell -> Cell
  {
    (c: Cell) => if c.owner == Some(id) then Cells.Resolve(c) else c
  }

  /** Every cell the board holds for shape `id` is resolved. */
  ghost predicate OwnedResolved(b: Board, id: ShapeId)
  {
    forall x, y :: CellAt(b, x, y).Some? && CellAt(b, x, y).value.owner == Some(id) ==> CellAt(b, x, y).value.resolved
  }

  /**
   * Resolves every cell the board holds for shape `id`: afterwards they
   * are all resolved, only resolved flags change, and cells of other shapes
   * and empty cells are untouched.
   */
  function MarkResolved(b: Board, id: ShapeId): (r: Board)
    ensures r.width == b.width && r.height == b.height && r.shapes == b.shapes
    ensures Height(r.queue) == Height(b.queue)
    ensures OwnedResolved(r, id)
    ensures forall x, y :: CellAt(r, x, y).Some? <==> CellAt(b, x, y).Some?
    ensures forall x, y :: CellAt(b, x, y).Some? ==>
              CellAt(r, x, y).value.(resolved := CellAt(b, x, y).value.resolved) == CellAt(b, x, y).value
    ensures forall x, y :: CellAt(b, x, y).Some? && CellAt(b, x, y).value.owner != Some(id) ==>
              CellAt(r, x, y) == CellAt(b, x, y)
  {
    b.(cells := MapCells(b.cells, ResolveOwned(id)), queue := MapCells(b.queue, ResolveOwned(id)))
  }

  /**
   * What resolving shape `id` does: the shape's cells are resolved, in the
   * registry and on the board alike; no other shape changes.
   */
  function Settle(b: Board, id: ShapeId): (r: Board)
    requires id in b.shapes
    ensures r.width == b.width && r.height == b.height
    ensures Height(r.queue) == Height(b.queue)
    ensures r.shapes == b.shapes[id := Shapes.Resolve(b.shapes[id])]
    ensures OwnedResolved(r, id) && Shapes.AllResolved(r.shapes[id])
    ensures r.shapes[id].x == b.shapes[id].x && r.shapes[id].y == b.shapes[id].y
  {
    MarkResolved(b, id).(shapes := b.shapes[id := Shapes.Resolve(b.shapes[id])])
  }

  /** Resolving shape `id` maps each position's cell through `ResolveOwned`. */
  lemma SettleAt(b: Board, id: ShapeId, px: int, py: int)
    requires id in b.shapes
    ensures CellAt(Settle(b, id), px, py) == MapCell(CellAt(b, px, py), ResolveOwned(id))
  {
    assert Settle(b, id).cells == MapCells(b.cells, ResolveOwned(id));
    assert Settle(b, id).queue == MapCells(b.queue, ResolveOwned(id));
  }

  // ---------------------------------------------------------------------
  // Moving a shape

  datatype Direction = Left | Right | Down

  function DeltaX(d: Direction): int
  {
    match d
    case Left => -1
    case Right => 1
    case Down => 0
  }

  function DeltaY(d: Direction): int
  {
    if d == Down then 1 else 0
  }

  /** How a move ended: refused at a side wall, stopped by the floor or by another shape, or carried out. */
  datatype Outcome = OutOfBounds | Grounded | Blocked | Moved

  datatype MoveResult = MoveResult(board: Board, outcome: Outcome)

  /** The shape's bounding box, moved dx columns, stays within the board's columns. */
  predicate InBounds(b: Board, s: Shape, dx: int)
  {
    0 <= s.x + dx && s.x + dx + s.Width() <= b.width
  }

  /** The shape's bounding box, moved dy rows, passes the floor. */
  predicate OverFloor(b: Board, s: Shape, dy: int)
  {
    s.y + dy + s.Height() > b.height
  }

  /**
   * Cell `c` of shape `id`, moved by (dx, dy), lands on a cell of another
   * shape. Missing cells, empty cells and the shape's own cells never block.
   */
  predicate Blocks(b: Board, id: ShapeId, c: Cell, dx: int, dy: int)
  {
    var d := CellAt(b, c.x + dx, c.y + dy);
    !c.IsEmpty() && d.Some? && d.value.owner != Some(id) && !d.value.IsEmpty()
  }

  /** Scans the cells in order for one that is blocked. */
  function AnyBlocks(b: Board, id: ShapeId, cs: seq<Cell>, dx: int, dy: int): (r: bool)
    ensures r <==> exists j :: 0 <= j < |cs| && Blocks(b, id, cs[j], dx, dy)
    decreases |cs|
  {
    if |cs| == 0 then false
    else if Blocks(b, id, cs[0], dx, dy) then true
    else
      var r := AnyBlocks(b, id, cs[1..], dx, dy);
      assert forall j :: 1 <= j < |cs| ==> cs[j] == cs[1..][j - 1];
      r
  }

  /** Some cell of shape `id`, moved by (dx, dy), is blocked. */
  predicate Collides(b: Board, id: ShapeId, dx: int, dy: int)
    requires id in b.shapes
  {
    AnyBlocks(b, id, Iterate(b.shapes[id].cells), dx, dy)
  }

  /** A move collides exactly when some present cell of the shape is blocked. */
  lemma CollidesSpec(b: Board, id: ShapeId, dx: int, dy: int)
    requires id in b.shapes
    ensures Collides(b, id, dx, dy) <==>
              exists x, y :: Get(b.shapes[id].cells, x, y).Some? && Blocks(b, id, Get(b.shapes[id].cells, x, y).value, dx, dy)
  {
    var g := b.shapes[id].cells;
    IterateSpec(g);
    if Collides(b, id, dx, dy) {
      var j :| 0 <= j < |Iterate(g)| && Blocks(b, id, Iterate(g)[j], dx, dy);
      var p := Slots(g)[j];
      assert Get(g, p.0, p.1) == Some(Iterate(g)[j]);
    }
  }

  /**
   * Moves shape `id` one step in direction `d`, if that is a valid move.
   * A box that would leave the board's columns changes nothing; one that
   * would pass the floor, or a cell that would land on another shape's
   * cell, resolves the shape where it is; otherwise the shape's origin
   * moves by exactly the step, the board is redrawn and the shape is
   * resolved. No other shape changes.
   */
  function Move(b: Board, id: ShapeId, d: Direction): (r: MoveResult)
    requires id in b.shapes
    ensures r.board.width == b.width && r.board.height == b.height
    ensures Height(r.board.queue) == Height(b.queue)
    ensures r.board.shapes.Keys == b.shapes.Keys
    ensures forall o :: o in b.shapes && o != id ==> r.board.shapes[o] == b.shapes[o]
    ensures r.outcome == OutOfBounds <==> !InBounds(b, b.shapes[id], DeltaX(d))
    ensures r.outcome == OutOfBounds ==> r.board == b
    ensures r.outcome == Grounded <==> InBounds(b, b.shapes[id], DeltaX(d)) && OverFloor(b, b.shapes[id], DeltaY(d))
    ensures r.outcome == Blocked <==>
              InBounds(b, b.shapes[id], DeltaX(d)) && !OverFloor(b, b.shapes[id], DeltaY(d)) && Collides(b, id, DeltaX(d), DeltaY(d))
    ensures r.outcome == Moved ==>
              r.board.shapes[id].x == b.shapes[id].x + DeltaX(d) && r.board.shapes[id].y == b.shapes[id].y + DeltaY(d)
    ensures r.outcome == Moved ==> r.board == Carry(b, id, DeltaX(d), DeltaY(d))
    ensures r.outcome == Grounded || r.outcome == Blocked ==> r.board == Settle(b, id)
    ensures r.outcome != Moved ==> r.board.shapes[id].x == b.shapes[id].x && r.board.shapes[id].y == b.shapes[id].y
    ensures r.outcome != OutOfBounds ==> OwnedResolved(r.board, id) && Shapes.AllResolved(r.board.shapes[id])
    ensures r.board.shapes[id].id == b.shapes[id].id
    ensures Shapes.WellFormed(b.shapes[id]) ==> Shapes.WellFormed(r.board.shapes[id])
  {
    var s := b.shapes[id];
    var dx, dy := DeltaX(d), DeltaY(d);
    if !InBounds(b, s, dx) then MoveResult(b, OutOfBounds)
    else if OverFloor(b, s, dy) then MoveResult(Settle(b, id), Grounded)
    else if Collides(b, id, dx, dy) then MoveResult(Settle(b, id), Blocked)
    else MoveResult(Carry(b, id, dx, dy), Moved)
  }

  /**
   * A carried-out move by (dx, dy): the shape's origin and cells move by
   * the step, the board drops the old footprint and draws the new one (the
   * shape reports where it was through its pre-move snapshot), and the
   * shape is resolved. No other shape changes.
   */
  function Carry(b: Board, id: ShapeId, dx: int, dy: int): (r: Board)
    requires id in b.shapes
    ensures r.width == b.width && r.height == b.height
    ensures Height(r.queue) == Height(b.queue)
    ensures r.shapes.Keys == b.shapes.Keys
    ensures forall o :: o in b.shapes && o != id ==> r.shapes[o] == b.shapes[o]
    ensures r.shapes[id].x == b.shapes[id].x + dx && r.shapes[id].y == b.shapes[id].y + dy
    ensures r.shapes[id].id == b.shapes[id].id
    ensures MaskOf(r.shapes[id].cells) == MaskOf(b.shapes[id].cells)
    ensures OwnedResolved(r, id) && Shapes.AllResolved(r.shapes[id])
    ensures Shapes.WellFormed(b.shapes[id]) ==> Shapes.WellFormed(r.shapes[id])
    ensures b.shapes[id].id == id && Shapes.WellFormed(b.shapes[id]) ==>
              forall px, py :: CellAt(r, px, py) == Redrawn(b, r.shapes[id], b.shapes[id].x, b.shapes[id].y, px, py)
  {
    var s := b.shapes[id];
    // The snapshot taken before the move gets the live shape's identity
    // too; only its origin is read, to locate the old footprint.
    var rep := Shapes.Move(s, s.x + dx, s.y + dy, false, id);
    var before := rep.before.value;
    var placed := ShapeMoved(b.(shapes := b.shapes[id := rep.shape]), rep.shape, before.x, before.y);
    SettleRedrawn(b, id, rep.shape, before.x, before.y);
    Settle(placed, id)
  }

  /** Every registered shape carries its own identity and is well formed. */
  ghost predicate Registered(b: Board)
  {
    forall o :: o in b.shapes ==> b.shapes[o].id == o && Shapes.WellFormed(b.shapes[o])
  }

  /** Moving a shape keeps the registry consistent. */
  lemma MoveKeepsRegistered(b: Board, id: ShapeId, d: Direction)
    requires id in b.shapes
    ensures Registered(b) ==> Registered(Move(b, id, d).board)
  {
  }

  /**
   * What position (px, py) holds once shape `t`, which stood at origin
   * (ox, oy), has been redrawn: its own cell at its new footprint, a fresh
   * cell where its mask covered the old origin, and elsewhere what `b`
   * held, with any cell of the shape resolved.
   */
  function Redrawn(b: Board, t: Shape, ox: int, oy: int, px: int, py: int): Option<Cell>
  {
    if Writable(b, px, py) && Get(t.cells, px - t.x, py - t.y).Some? then Get(t.cells, px - t.x, py - t.y)
    else if Writable(b, px, py) && Get(t.cells, px - ox, py - oy).Some? then Some(New(px, py))
    else MapCell(CellAt(b, px, py), ResolveOwned(t.id))
  }

  /**
   * After a carried-out move the board is redrawn around the shape: its
   * resolved cells at the new footprint, fresh cells over the rest of the
   * old one, everything else as it was.
   */
  lemma MoveFootprint(b: Board, id: ShapeId, d: Direction, px: int, py: int)
    requires id in b.shapes && b.shapes[id].id == id && Shapes.WellFormed(b.shapes[id])
    requires Move(b, id, d).outcome == Moved
    ensures CellAt(Move(b, id, d).board, px, py) ==
              Redrawn(b, Move(b, id, d).board.shapes[id], b.shapes[id].x, b.shapes[id].y, px, py)
  {
  }

  /** Drawing the moved shape `m` (which stood at (ox, oy)) and resolving it redraws the board. */
  lemma SettleRedrawn(b: Board, id: ShapeId, m: Shape, ox: int, oy: int)
    requires id in b.shapes
    ensures var r := Settle(ShapeMoved(b.(shapes := b.shapes[id := m]), m, ox, oy), id);
            m.id == id && Shapes.WellFormed(m) ==>
              forall px, py :: CellAt(r, px, py) == Redrawn(b, r.shapes[id], ox, oy, px, py)
  {
    if m.id == id && Shapes.WellFormed(m) {
      var r := Settle(ShapeMoved(b.(shapes := b.shapes[id := m]), m, ox, oy), id);
      assert r.shapes[id] == Shapes.Resolve(m);
      forall px, py
        ensures CellAt(r, px, py) == Redrawn(b, Shapes.Resolve(m), ox, oy, px, py)
      {
        SettleRedrawnAt(b, id, m, ox, oy, px, py);
      }
    }
  }

  lemma SettleRedrawnAt(b: Board, id: ShapeId, m: Shape, ox: int, oy: int, px: int, py: int)
    requires id in b.shapes && m.id == id && Shapes.WellFormed(m)
    ensures CellAt(Settle(ShapeMoved(b.(shapes := b.shapes[id := m]), m, ox, oy), id), px, py) ==
              Redrawn(b, Shapes.Resolve(m), ox, oy, px, py)
  {
    var placed := ShapeMoved(b.(shapes := b.shapes[id := m]), m, ox, oy);
    var t := Shapes.Resolve(m);
    ShapeMovedAt(b, id, m, ox, oy, px, py);
    SettleAt(placed, id, px, py);
    ResolvedAt(m, ox, oy, px, py);
    Combine(b, t, ox, oy, px, py, CellAt(placed, px, py), CellAt(Settle(placed, id), px, py),
            Get(m.cells, px - m.x, py - m.y), Get(m.cells, px - ox, py - oy), id);
  }

  /** The case analysis of `SettleRedrawnAt`, over the values involved. */
  lemma Combine(b: Board, t: Shape, ox: int, oy: int, px: int, py: int,
                here: Option<Cell>, after: Option<Cell>, mc: Option<Cell>, mo: Option<Cell>, id: ShapeId)
    requires Writable(b, px, py) && mc.Some? ==> here == mc
    requires !(Writable(b, px, py) && mc.Some?) && Writable(b, px, py) && mo.Some? ==> here == Some(New(px, py))
    requires !(Writable(b, px, py) && mc.Some?) && !(Writable(b, px, py) && mo.Some?) ==> here == CellAt(b, px, py)
    requires after == MapCell(here, ResolveOwned(id))
    requires mc.Some? ==> mc.value.owner == Some(id)
    requires Get(t.cells, px - t.x, py - t.y) == MapCell(mc, Cells.Resolve)
    requires Get(t.cells, px - ox, py - oy) == MapCell(mo, Cells.Resolve)
    requires t.id == id
    ensures after == Redrawn(b, t, ox, oy, px, py)
  {
  }

  /** Resolving a shape resolves its cell at each position, measured from its origin or from (ox, oy). */
  lemma ResolvedAt(m: Shape, ox: int, oy: int, px: int, py: int)
    ensures var t := Shapes.Resolve(m);
            && t.id == m.id
            && Get(t.cells, px - t.x, py - t.y) == MapCell(Get(m.cells, px - m.x, py - m.y), Cells.Resolve)
            && Get(t.cells, px - ox, py - oy) == MapCell(Get(m.cells, px - ox, py - oy), Cells.Resolve)
  {
    var t := Shapes.Resolve(m);
    assert t.cells == MapCells(m.cells, Cells.Resolve) && t.x == m.x && t.y == m.y;
  }

  /** The board after drawing the moved shape `m` (which stood at (ox, oy)), position by position. */
  lemma ShapeMovedAt(b: Board, id: ShapeId, m: Shape, ox: int, oy: int, px: int, py: int)
    requires id in b.shapes && m.id == id && Shapes.WellFormed(m)
    ensures var here := CellAt(ShapeMoved(b.(shapes := b.shapes[id := m]), m, ox, oy), px, py);
            var newly := Writable(b, px, py) && Get(m.cells, px - m.x, py - m.y).Some?;
            var vacated := Writable(b, px, py) && Get(m.cells, px - ox, py - oy).Some?;
            && (newly ==> here == Get(m.cells, px - m.x, py - m.y))
            && (!newly && vacated ==> here == Some(New(px, py)))
            && (!newly && !vacated ==> here == CellAt(b, px, py))
    ensures var c := Get(m.cells, px - m.x, py - m.y); c.Some? ==> c.value.owner == Some(id)
  {
    var b1 := b.(shapes := b.shapes[id := m]);
    assert b1.queue == b.queue && b1.cells == b.cells;
    ShapeMovedPoint(b1, m, ox, oy, px, py);
  }

  /** Moving one shape leaves the cells of every other shape as resolved as they were. */
  lemma MoveKeepsOthersResolved(b: Board, id: ShapeId, d: Direction, o: ShapeId)
    requires id in b.shapes && b.shapes[id].id == id && Shapes.WellFormed(b.shapes[id])
    requires o != id && OwnedResolved(b, o)
    ensures OwnedResolved(Move(b, id, d).board, o)
  {
    forall x, y
      ensures var c := CellAt(Move(b, id, d).board, x, y);
              c.Some? && c.value.owner == Some(o) ==> c.value.resolved
    {
      MoveOthersAt(b, id, d, o, x, y);
    }
  }

  /** A cell of another shape after a move is the cell that was there before. */
  lemma MoveOthersAt(b: Board, id: ShapeId, d: Direction, o: ShapeId, x: int, y: int)
    requires id in b.shapes && b.shapes[id].id == id && Shapes.WellFormed(b.shapes[id]) && o != id
    ensures var c := CellAt(Move(b, id, d).board, x, y);
            c.Some? && c.value.owner == Some(o) ==> c == CellAt(b, x, y)
  {
    var r := Move(b, id, d);
    if r.outcome == Moved {
      MoveFootprint(b, id, d, x, y);
      RedrawnOthers(b, r.board.shapes[id], b.shapes[id].x, b.shapes[id].y, x, y);
    } else if r.outcome != OutOfBounds {
      SettleAt(b, id, x, y);
    }
  }

  /** In a redrawn board, a cell of a shape other than `t` is the one that was there. */
  lemma RedrawnOthers(b: Board, t: Shape, ox: int, oy: int, x: int, y: int)
    requires Shapes.WellFormed(t)
    ensures var c := Redrawn(b, t, ox, oy, x, y);
            c.Some? && c.value.owner != Some(t.id) && !c.value.IsEmpty() ==> c == CellAt(b, x, y)
  {
  }

  // ---------------------------------------------------------------------
  // The falling shape

  /** Nothing stops shape `id` from falling one row: neither the floor nor another shape. */
  predicate IsActiveShape(b: Board, id: ShapeId)
    requires id in b.shapes
  {
    !OverFloor(b, b.shapes[id], 1) && !Collides(b, id, 0, 1)
  }

  /**
   * A shape whose box lies within the board's columns is active exactly
   * when a move down carries it one row; otherwise the move is refused.
   */
  lemma ActiveIffMovesDown(b: Board, id: ShapeId)
    requires id in b.shapes
    ensures InBounds(b, b.shapes[id], 0) ==> (IsActiveShape(b, id) <==> Move(b, id, Down).outcome == Moved)
    ensures !InBounds(b, b.shapes[id], 0) ==> Move(b, id, Down).outcome == OutOfBounds
  {
  }

  /** A cell that leads to an active shape: it has an owner, the owner is registered and active. */
  predicate Candidate(b: Board, c: Cell)
  {
    c.owner.Some? && c.owner.value in b.shapes && IsActiveShape(b, c.owner.value)
  }

  /** The owner of the first candidate among `cs`, if any. */
  function FirstActive(b: Board, cs: seq<Cell>): (r: Option<ShapeId>)
    ensures r.Some? ==> r.value in b.shapes && IsActiveShape(b, r.value)
    ensures r.None? <==> forall j :: 0 <= j < |cs| ==> !Candidate(b, cs[j])
    decreases |cs|
  {
    if |cs| == 0 then None
    else if Candidate(b, cs[0]) then cs[0].owner
    else
      var r := FirstActive(b, cs[1..]);
      assert forall j :: 1 <= j < |cs| ==> cs[j] == cs[1..][j - 1];
      r
  }

  /** No cell before position j is a candidate. */
  predicate NoneBefore(b: Board, cs: seq<Cell>, j: int)
    requires j <= |cs|
  {
    forall i :: 0 <= i < j ==> !Candidate(b, cs[i])
  }

  /** What the scan finds is the owner of the first candidate. */
  lemma {:induction false} FirstActiveIsFirst(b: Board, cs: seq<Cell>)
    ensures FirstActive(b, cs).Some? ==>
              exists j :: 0 <= j < |cs| && Candidate(b, cs[j]) && cs[j].owner == FirstActive(b, cs) && NoneBefore(b, cs, j)
    decreases |cs|
  {
    if |cs| > 0 && !Candidate(b, cs[0]) {
      var t := cs[1..];
      FirstActiveIsFirst(b, t);
      if FirstActive(b, t).Some? {
        var j :| 0 <= j < |t| && Candidate(b, t[j]) && t[j].owner == FirstActive(b, t) && NoneBefore(b, t, j);
        assert cs[j + 1] == t[j];
        assert forall i :: 1 <= i < j + 1 ==> cs[i] == t[i - 1];
        assert NoneBefore(b, cs, j + 1);
      }
    } else if |cs| > 0 {
      assert NoneBefore(b, cs, 0);
    }
  }

  /** No present cell of the grid leads to an active shape. */
  ghost predicate NoCandidate(b: Board, g: Grid)
  {
    forall x, y :: Get(g, x, y).Some? ==> !Candidate(b, Get(g, x, y).value)
  }

  /**
   * The falling shape: the owner of the first non-empty cell, scanning the
   * queue and then the board in iteration order, whose shape is active.
   * There is none exactly when no present cell leads to an active shape.
   */
  function ActiveShape(b: Board): (r: Option<ShapeId>)
    ensures r.Some? ==> r.value in b.shapes && IsActiveShape(b, r.value)
    ensures r.None? <==> NoCandidate(b, b.queue) && NoCandidate(b, b.cells)
  {
    var q, c := Iterate(b.queue), Iterate(b.cells);
    NoCandidateIterate(b, b.queue);
    NoCandidateIterate(b, b.cells);
    assert forall j :: 0 <= j < |q| ==> (q + c)[j] == q[j];
    assert forall j :: 0 <= j < |c| ==> (q + c)[|q| + j] == c[j];
    FirstActive(b, q + c)
  }

  lemma NoCandidateIterate(b: Board, g: Grid)
    ensures NoCandidate(b, g) <==> forall j :: 0 <= j < |Iterate(g)| ==> !Candidate(b, Iterate(g)[j])
  {
    IterateSpec(g);
  }

  /** How a side step in direction dx ends for shape `id`: the row is kept, and the column moves by dx exactly when the box stays on the board and nothing blocks. */
  predicate SideStep(b: Board, r: Board, id: ShapeId, dx: int)
    requires id in b.shapes && id in r.shapes
  {
    && r.shapes[id].y == b.shapes[id].y
    && r.shapes[id].x == if InBounds(b, b.shapes[id], dx) && !Collides(b, id, dx, 0) then b.shapes[id].x + dx else b.shapes[id].x
  }

  /** Moves the falling shape one column left; without a falling shape nothing changes. No other shape moves. */
  function MoveLeft(b: Board): (r: Board)
    ensures ActiveShape(b).None? ==> r == b
    ensures r.shapes.Keys == b.shapes.Keys
    ensures forall o :: o in b.shapes && ActiveShape(b) != Some(o) ==> r.shapes[o] == b.shapes[o]
    ensures ActiveShape(b).Some? ==> SideStep(b, r, ActiveShape(b).value, -1)
  {
    match ActiveShape(b)
    case None => b
    case Some(id) => Move(b, id, Left).board
  }

  /** Moves the falling shape one column right; without a falling shape nothing changes. No other shape moves. */
  function MoveRight(b: Board): (r: Board)
    ensures ActiveShape(b).None? ==> r == b
    ensures r.shapes.Keys == b.shapes.Keys
    ensures forall o :: o in b.shapes && ActiveShape(b) != Some(o) ==> r.shapes[o] == b.shapes[o]
    ensures ActiveShape(b).Some? ==> SideStep(b, r, ActiveShape(b).value, 1)
  {
    match ActiveShape(b)
    case None => b
    case Some(id) => Move(b, id, Right).board
  }
}
