/**
 * One square of a grid (src/Cell.jsx).
 *
 * The source keeps a reference to the owning shape in every cell; here the
 * reference is the owning shape's identity, so that cells are plain values.
 */
module Cells {
  import opened Wrappers

  /** The identity of a shape: stands in for an object reference. */
  type ShapeId = nat

  /**
   * A cell colour. `Undefined` is the value the engine reads for both the
   * default cell colour (an entry looked up by name in an array of colour
   * strings) and the colour of a catalogue entry (a bare scheme array):
   * neither lookup finds anything.
   */
  datatype Color = Undefined | Hex(code: string)

  /** The colour of an empty cell. */
  const DefaultColor: Color := Undefined

  datatype Cell = Cell(owner: Option<ShapeId>, color: Color, resolved: bool, x: int, y: int)
  {
    /** A cell is empty exactly when no shape owns it. */
    predicate IsEmpty()
    {
      owner.None?
    }
  }

  /** A fresh cell at (x, y): empty, resolved and default-coloured. */
  function New(x: int, y: int): (c: Cell)
    ensures c.IsEmpty() && c.resolved && c.color == DefaultColor
    ensures c.x == x && c.y == y
  {
    Cell(None, DefaultColor, true, x, y)
  }

  /** Empties a cell in place: what is left is a fresh cell at the same coordinates. */
  function Clear(c: Cell): (r: Cell)
    ensures r == New(c.x, c.y)
  {
    c.(owner := None, resolved := true, color := DefaultColor)
  }

  /** Marks a cell resolved; owner, colour and coordinates are kept. */
  function Resolve(c: Cell): (r: Cell)
    ensures r.resolved
    ensures r.(resolved := c.resolved) == c
  {
    c.(resolved := true)
  }

  /** Moves a cell to (x, y); owner, colour and resolved flag are kept. */
  function Move(c: Cell, x: int, y: int): (r: Cell)
    ensures r.x == x && r.y == y
    ensures r.(x := c.x, y := c.y) == c
  {
    c.(x := x, y := y)
  }

  /** A copy of a cell that belongs to the shape `id` (what cloning a shape does to each cell). */
  function Rebind(c: Cell, id: ShapeId): (r: Cell)
    ensures !r.IsEmpty() && r.owner == Some(id)
    ensures r.(owner := c.owner) == c
  {
    c.(owner := Some(id))
  }

  /** Clearing twice is clearing once, and a cleared cell is empty with its coordinates kept. */
  lemma ClearIdempotent(c: Cell)
    ensures Clear(Clear(c)) == Clear(c)
    ensures Clear(c).IsEmpty() && Clear(c).x == c.x && Clear(c).y == c.y
  {
  }

  /** Moving a cell and moving it back restores it. */
  lemma MoveRoundTrip(c: Cell, x: int, y: int)
    ensures Move(Move(c, x, y), c.x, c.y) == c
  {
  }
}
