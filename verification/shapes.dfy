/**
 * A block of cells built from a scheme, with an origin (src/Shape.jsx).
 *
 * Cells of a shape sit at the shape's origin plus their slot in the shape's
 * grid and are owned by the shape; `WellFormed` states this, and every
 * operation here keeps it.
 */
module Shapes {
  import opened Wrappers
  import opened Cells
  import opened Grids
  import Rotation

  datatype Shape = Shape(id: ShapeId, cells: Grid, color: Color, x: int, y: int)
  {
    /** The number of rows of the shape's grid. */
    function Height(): nat
    {
      Grids.Height(cells)
    }

    /** The length of the first row of the shape's grid. */
    function Width(): nat
    {
      Grids.Width(cells)
    }
  }

  /** Every present cell is owned by the shape and sits at origin plus slot. */
  ghost predicate WellFormed(s: Shape)
  {
    && Placed(s.cells, s.x, s.y)
    && forall x, y :: Get(s.cells, x, y).Some? ==> Get(s.cells, x, y).value.owner == Some(s.id)
  }

  /** Every present cell of the shape is resolved. */
  ghost predicate AllResolved(s: Shape)
  {
    forall x, y :: Get(s.cells, x, y).Some? ==> Get(s.cells, x, y).value.resolved
  }

  /**
   * Builds a shape at origin (0, 0) from a scheme: one row per scheme row,
   * and a cell at (k, i) exactly where `scheme[i][k]` holds, owned by the
   * shape, of the given colour and unresolved.
   */
  function FromScheme(scheme: Mask, color: Color, id: ShapeId): (s: Shape)
    ensures s.id == id && s.color == color && s.x == 0 && s.y == 0
    ensures MaskOf(s.cells) == scheme
    ensures WellFormed(s)
    ensures forall x, y :: Get(s.cells, x, y).Some? ==>
              Get(s.cells, x, y).value.color == color && !Get(s.cells, x, y).value.resolved
  {
    var cells := seq(|scheme|, i requires 0 <= i < |scheme| =>
                   seq(|scheme[i]|, k requires 0 <= k < |scheme[i]| =>
                     if scheme[i][k] then Some(Cell(Some(id), color, false, k, i)) else None));
    assert forall i :: 0 <= i < |scheme| ==> MaskOf(cells)[i] == scheme[i];
    Shape(id, cells, color, 0, 0)
  }

  function RebindCell(id: ShapeId): Cell -> Cell
  {
    c => Rebind(c, id)
  }

  /**
   * A copy of the shape with identity `id`: same origin and colour, the
   * shape's bounding box (width of the first row, all rows; no rows at all
   * when that width is 0) copied slot by slot, each cell owned by the copy.
   */
  function Clone(s: Shape, id: ShapeId): (r: Shape)
    ensures r.id == id && r.x == s.x && r.y == s.y && r.color == s.color
    ensures r.Width() == s.Width()
    ensures r.Height() == if s.Width() == 0 then 0 else s.Height()
    ensures Rectangular(r.cells)
    ensures Rectangular(s.cells) && (s.Width() > 0 || s.Height() == 0) ==> MaskOf(r.cells) == MaskOf(s.cells)
    ensures forall x, y :: Get(r.cells, x, y).Some? ==> Get(r.cells, x, y) == MapCell(Get(s.cells, x, y), RebindCell(id))
    ensures WellFormed(s) ==> WellFormed(r)
  {
    var w := s.Width();
    var h := if w == 0 then 0 else s.Height();
    var cells := seq(h, y requires 0 <= y < h => seq(w, x requires 0 <= x < w => MapCell(Get(s.cells, x, y), RebindCell(id))));
    var r := Shape(id, cells, s.color, s.x, s.y);
    assert Rectangular(s.cells) && (s.Width() > 0 || s.Height() == 0) ==>
             forall i :: 0 <= i < h ==> MaskOf(cells)[i] == MaskOf(s.cells)[i];
    r
  }

  /** Cloning a well-formed rectangular shape and cloning back under its own identity gives the shape back. */
  lemma CloneRoundTrip(s: Shape, id: ShapeId)
    requires WellFormed(s) && Rectangular(s.cells) && (s.Width() > 0 || s.Height() == 0)
    ensures Clone(Clone(s, id), s.id) == s
  {
    var c := Clone(Clone(s, id), s.id);
    assert |c.cells| == |s.cells|;
    forall i | 0 <= i < |s.cells|
      ensures c.cells[i] == s.cells[i]
    {
      assert |c.cells[i]| == |s.cells[i]|;
      forall k | 0 <= k < |s.cells[i]|
        ensures c.cells[i][k] == s.cells[i][k]
      {
        assert Get(c.cells, k, i) == c.cells[i][k] && Get(s.cells, k, i) == s.cells[i][k];
      }
    }
  }

  /**
   * The shape found through a cell's owner, cloned under identity `id`
   * (`None` for an empty cell or an unknown owner): the owner's origin,
   * colour and bounding box, and in each slot of the box the owner's cell
   * rebound to the copy.
   */
  function FromCell(shapes: map<ShapeId, Shape>, c: Cell, id: ShapeId): (r: Option<Shape>)
    ensures r.Some? <==> c.owner.Some? && c.owner.value in shapes
    ensures r.Some? ==> r.value.id == id && r.value.x == shapes[c.owner.value].x && r.value.y == shapes[c.owner.value].y
    ensures r.Some? ==> r.value.color == shapes[c.owner.value].color
    ensures r.Some? ==> r.value.Width() == shapes[c.owner.value].Width() &&
                        r.value.Height() == if shapes[c.owner.value].Width() == 0 then 0 else shapes[c.owner.value].Height()
    ensures r.Some? ==> forall x, y :: Get(r.value.cells, x, y).Some? ==>
                          Get(r.value.cells, x, y) == MapCell(Get(shapes[c.owner.value].cells, x, y), RebindCell(id))
    ensures r.Some? && Rectangular(shapes[c.owner.value].cells) &&
            (shapes[c.owner.value].Width() > 0 || shapes[c.owner.value].Height() == 0) ==>
              MaskOf(r.value.cells) == MaskOf(shapes[c.owner.value].cells)
    ensures r.Some? && WellFormed(shapes[c.owner.value]) ==> WellFormed(r.value)
  {
    if c.owner.Some? && c.owner.value in shapes then Some(Clone(shapes[c.owner.value], id)) else None
  }

  /**
   * A cell of a registered, well-formed rectangular shape, looked up under
   * that shape's own identity, gives the shape back unchanged.
   */
  lemma FromCellOwnShape(shapes: map<ShapeId, Shape>, c: Cell)
    requires c.owner.Some? && c.owner.value in shapes
    requires var s := shapes[c.owner.value];
             s.id == c.owner.value && WellFormed(s) && Rectangular(s.cells) && (s.Width() > 0 || s.Height() == 0)
    ensures FromCell(shapes, c, c.owner.value) == Some(shapes[c.owner.value])
  {
    var s := shapes[c.owner.value];
    var r := Clone(s, s.id);
    assert |r.cells| == |s.cells|;
    forall i | 0 <= i < |s.cells|
      ensures r.cells[i] == s.cells[i]
    {
      assert |r.cells[i]| == |s.cells[i]|;
      forall k | 0 <= k < |s.cells[i]|
        ensures r.cells[i][k] == s.cells[i][k]
      {
        assert Get(r.cells, k, i) == r.cells[i][k] && Get(s.cells, k, i) == s.cells[i][k];
      }
    }
    assert r.cells == s.cells;
    assert FromCell(shapes, c, c.owner.value) == Some(r);
  }

  /** Marks every cell of the shape resolved; nothing else about any cell changes. */
  function Resolve(s: Shape): (r: Shape)
    ensures AllResolved(r)
    ensures r.id == s.id && r.x == s.x && r.y == s.y && r.color == s.color
    ensures MaskOf(r.cells) == MaskOf(s.cells)
    ensures forall x, y :: Get(s.cells, x, y).Some? ==> Get(r.cells, x, y).value.(resolved := Get(s.cells, x, y).value.resolved) == Get(s.cells, x, y).value
    ensures WellFormed(s) ==> WellFormed(r)
  {
    s.(cells := MapCells(s.cells, Cells.Resolve))
  }

  /** What moving a shape reports: the moved shape and, unless silenced, a snapshot of it before the move. */
  datatype MoveReport = MoveReport(shape: Shape, before: Option<Shape>)

  function Translate(dx: int, dy: int): Cell -> Cell
  {
    (c: Cell) => Cells.Move(c, c.x + dx, c.y + dy)
  }

  /**
   * Moves the shape's origin to (x, y) and every cell by the same delta.
   * Without `silent` it also reports a snapshot taken before the move (a
   * clone under identity `snapshot`), which the board uses to find the old
   * footprint.
   */
  function Move(s: Shape, x: int, y: int, silent: bool, snapshot: ShapeId): (r: MoveReport)
    ensures r.shape.x == x && r.shape.y == y
    ensures r.shape.id == s.id && r.shape.color == s.color
    ensures MaskOf(r.shape.cells) == MaskOf(s.cells)
    ensures forall cx, cy :: Get(s.cells, cx, cy).Some? ==>
              Get(r.shape.cells, cx, cy).value ==
                Get(s.cells, cx, cy).value.(x := Get(s.cells, cx, cy).value.x + (x - s.x), y := Get(s.cells, cx, cy).value.y + (y - s.y))
    ensures WellFormed(s) ==> WellFormed(r.shape)
    ensures r.before == if silent then None else Some(Clone(s, snapshot))
  {
    var dx, dy := x - s.x, y - s.y;
    var moved := s.(x := x, y := y, cells := MapCells(s.cells, Translate(dx, dy)));
    MoveReport(moved, if silent then None else Some(Clone(s, snapshot)))
  }

  /** Moving a shape and moving it back restores it exactly. */
  lemma MoveRoundTrip(s: Shape, x: int, y: int, silent: bool, snapshot: ShapeId)
    ensures Move(Move(s, x, y, silent, snapshot).shape, s.x, s.y, silent, snapshot).shape == s
  {
    var b := Move(Move(s, x, y, silent, snapshot).shape, s.x, s.y, silent, snapshot).shape;
    forall cx, cy | Get(b.cells, cx, cy).Some?
      ensures Get(b.cells, cx, cy) == Get(s.cells, cx, cy)
    {
      MoveBackAt(s, x, y, silent, snapshot, cx, cy);
    }
    GridExt(b.cells, s.cells);
  }

  lemma MoveBackAt(s: Shape, x: int, y: int, silent: bool, snapshot: ShapeId, cx: int, cy: int)
    ensures var b := Move(Move(s, x, y, silent, snapshot).shape, s.x, s.y, silent, snapshot).shape;
            Get(b.cells, cx, cy).Some? ==> Get(b.cells, cx, cy) == Get(s.cells, cx, cy)
  {
    var m := Move(s, x, y, silent, snapshot).shape;
    var b := Move(m, s.x, s.y, silent, snapshot).shape;
    if Get(b.cells, cx, cy).Some? {
      SameMask(b.cells, m.cells);
      SameMask(m.cells, s.cells);
      var c := Get(s.cells, cx, cy).value;
      assert Get(m.cells, cx, cy).value == c.(x := c.x + (x - s.x), y := c.y + (y - s.y));
      assert Get(b.cells, cx, cy).value == c;
    }
  }

  /**
   * The speculative rotation: a clone under identity `id` whose grid has
   * been turned a quarter clockwise about the shape's origin. The shape
   * itself is not changed (it is a value).
   */
  function Rotate(s: Shape, id: ShapeId): (r: Shape)
    ensures r.id == id && r.x == s.x && r.y == s.y && r.color == s.color
    ensures Rectangular(s.cells) && s.Width() > 0 && s.Height() > 0 ==>
              r.Height() == s.Width() && r.Width() == s.Height() && Rectangular(r.cells)
    ensures Rectangular(s.cells) ==> |Iterate(r.cells)| == |Iterate(s.cells)|
    ensures WellFormed(s) ==> WellFormed(r)
    ensures s.Width() > 0 ==>
              forall i, j :: 0 <= i < s.Width() && 0 <= j < s.Height() ==>
                Get(r.cells, j, i) == MoveTo(MapCell(Get(s.cells, i, s.Height() - 1 - j), RebindCell(id)), s.x + j, s.y + i)
  {
    var c := Clone(s, id);
    var r := c.(cells := Grids.Rotate(c.cells, c.x, c.y));
    Rotation.RotatePreservesCount(c.cells, c.x, c.y);
    Rotation.RotateGet(c.cells, c.x, c.y);
    CloneKeepsCount(s, id);
    RotateClockwise(s, id);
    r
  }

  /**
   * The turn is a quarter clockwise: the cell in column i, row k of the
   * shape's box moves to column (height - 1 - k), row i, takes on that
   * position relative to the origin and the new identity.
   */
  lemma RotateClockwise(s: Shape, id: ShapeId)
    ensures var g := Grids.Rotate(Clone(s, id).cells, s.x, s.y);
            s.Width() > 0 ==>
              forall i, j :: 0 <= i < s.Width() && 0 <= j < s.Height() ==>
                Get(g, j, i) == MoveTo(MapCell(Get(s.cells, i, s.Height() - 1 - j), RebindCell(id)), s.x + j, s.y + i)
  {
    var c := Clone(s, id);
    forall i, j | 0 <= i < s.Width() && 0 <= j < s.Height()
      ensures Get(Grids.Rotate(c.cells, s.x, s.y), j, i) ==
                MoveTo(MapCell(Get(s.cells, i, s.Height() - 1 - j), RebindCell(id)), s.x + j, s.y + i)
    {
      RotateClockwiseAt(s, id, i, j);
    }
  }

  lemma RotateClockwiseAt(s: Shape, id: ShapeId, i: int, j: int)
    requires 0 <= i < s.Width() && 0 <= j < s.Height()
    ensures Get(Grids.Rotate(Clone(s, id).cells, s.x, s.y), j, i) ==
              MoveTo(MapCell(Get(s.cells, i, s.Height() - 1 - j), RebindCell(id)), s.x + j, s.y + i)
  {
    CloneAt(s, id, i, s.Height() - 1 - j);
    TurnRebound(Clone(s, id).cells, s.cells, id, s.x, s.y, i, j);
  }

  /** A quarter turn of a grid that holds the rebound cells of `src` moves those cells. */
  lemma TurnRebound(g: Grid, src: Grid, id: ShapeId, ox: int, oy: int, i: int, j: int)
    requires 0 <= i < Width(g) && 0 <= j < Height(g)
    requires Get(g, i, Height(g) - 1 - j) == MapCell(Get(src, i, Height(g) - 1 - j), RebindCell(id))
    ensures Get(Grids.Rotate(g, ox, oy), j, i) == MoveTo(MapCell(Get(src, i, Height(g) - 1 - j), RebindCell(id)), ox + j, oy + i)
  {
    Rotation.RotateGetAt(g, ox, oy, i, j);
  }

  /** Within the box, the clone holds the rebound cell of the original, a hole where it has none. */
  lemma CloneAt(s: Shape, id: ShapeId, x: int, y: int)
    requires 0 <= x < s.Width() && 0 <= y < s.Height()
    ensures Width(Clone(s, id).cells) == s.Width() && Height(Clone(s, id).cells) == s.Height()
    ensures Get(Clone(s, id).cells, x, y) == MapCell(Get(s.cells, x, y), RebindCell(id))
  {
  }

  /** Cloning a rectangular shape keeps the number of present cells. */
  lemma CloneKeepsCount(s: Shape, id: ShapeId)
    ensures Rectangular(s.cells) ==> |Iterate(Clone(s, id).cells)| == |Iterate(s.cells)|
  {
    if Rectangular(s.cells) && s.Width() == 0 && s.Height() > 0 {
      SlotsSpec(s.cells);
      if |Slots(s.cells)| > 0 {
        var p := Slots(s.cells)[0];
        var c := Get(s.cells, p.0, p.1);
        assert false;
      }
    }
  }

  function Recolor(color: Color): Cell -> Cell
  {
    (c: Cell) => c.(color := color)
  }

  /** Sets the shape's colour and the colour of every one of its cells. */
  function SetColor(s: Shape, color: Color): (r: Shape)
    ensures r.color == color && r.id == s.id && r.x == s.x && r.y == s.y
    ensures MaskOf(r.cells) == MaskOf(s.cells)
    ensures forall x, y :: Get(s.cells, x, y).Some? ==>
              Get(r.cells, x, y).value.color == color &&
              Get(r.cells, x, y).value.(color := Get(s.cells, x, y).value.color) == Get(s.cells, x, y).value
    ensures WellFormed(s) ==> WellFormed(r)
  {
    s.(color := color, cells := MapCells(s.cells, Recolor(color)))
  }
}
