/**
 * Properties of the clockwise quarter turn of a grid (the `rotate` of
 * src/CellGrid.jsx): where each cell lands, that four turns are the
 * identity, and that no cell is lost or duplicated.
 */
module Rotation {
  import opened Wrappers
  import opened Cells
  import opened Grids

  /** Old column i, row k lands at new row i, column height-1-k, moved to the origin plus that slot. */
  lemma RotateGet(g: Grid, ox: int, oy: int)
    ensures Height(g) > 0 && Width(g) > 0 ==> forall i, j :: 0 <= i < Width(g) && 0 <= j < Height(g) ==>
              Get(Rotate(g, ox, oy), j, i) == MoveTo(Get(g, i, Height(g) - 1 - j), ox + j, oy + i)
  {
  }

  /** `RotateGet` at one slot. */
  lemma RotateGetAt(g: Grid, ox: int, oy: int, i: int, j: int)
    requires 0 <= i < Width(g) && 0 <= j < Height(g)
    ensures Get(Rotate(g, ox, oy), j, i) == MoveTo(Get(g, i, Height(g) - 1 - j), ox + j, oy + i)
  {
  }

  /** Two quarter turns of a rectangular grid: a half turn, each cell moved to its new slot. */
  lemma HalfTurn(g: Grid, ox: int, oy: int)
    requires Rectangular(g) && Height(g) > 0 && Width(g) > 0
    ensures var r2 := Rotate(Rotate(g, ox, oy), ox, oy);
            && Height(r2) == Height(g) && Rectangular(r2) && Width(r2) == Width(g)
            && forall a, b :: 0 <= a < Height(g) && 0 <= b < Width(g) ==>
                 r2[a][b] == MoveTo(g[Height(g) - 1 - a][Width(g) - 1 - b], ox + b, oy + a)
  {
    var r1 := Rotate(g, ox, oy);
    assert Height(r1) > 0 && Width(r1) > 0;
    forall a, b | 0 <= a < Height(g) && 0 <= b < Width(g)
      ensures Rotate(Rotate(g, ox, oy), ox, oy)[a][b] == MoveTo(g[Height(g) - 1 - a][Width(g) - 1 - b], ox + b, oy + a)
    {
      HalfTurnAt(g, ox, oy, a, b);
    }
  }

  lemma HalfTurnAt(g: Grid, ox: int, oy: int, a: int, b: int)
    requires Rectangular(g) && 0 <= a < Height(g) && 0 <= b < Width(g)
    ensures var r2 := Rotate(Rotate(g, ox, oy), ox, oy);
            a < |r2| && b < |r2[a]| && r2[a][b] == MoveTo(g[Height(g) - 1 - a][Width(g) - 1 - b], ox + b, oy + a)
  {
    var h, w := Height(g), Width(g);
    var r1 := Rotate(g, ox, oy);
    RotateGetAt(r1, ox, oy, a, b);
    RotateGetAt(g, ox, oy, w - 1 - b, a);
    assert Get(g, w - 1 - b, h - 1 - a) == g[h - 1 - a][w - 1 - b];
    assert Get(Rotate(r1, ox, oy), b, a) == Rotate(r1, ox, oy)[a][b];
  }

  /** The half turn of a rectangular grid, written directly: row a, column b holds the cell opposite, moved to its new slot. */
  function HalfTurned(g: Grid, ox: int, oy: int): (r: Grid)
    requires Rectangular(g)
    ensures |r| == |g| && forall a :: 0 <= a < |r| ==> |r[a]| == Width(g)
    ensures forall a, b :: 0 <= a < |g| && 0 <= b < Width(g) ==>
              r[a][b] == MoveTo(g[|g| - 1 - a][Width(g) - 1 - b], ox + b, oy + a)
  {
    seq(|g|, a requires 0 <= a < |g| =>
      seq(Width(g), b requires 0 <= b < Width(g) => MoveTo(g[|g| - 1 - a][Width(g) - 1 - b], ox + b, oy + a)))
  }

  /** Two quarter turns are the half turn. */
  lemma TwoTurnsHalfTurn(g: Grid, ox: int, oy: int)
    requires Rectangular(g) && Height(g) > 0 && Width(g) > 0
    ensures Rotate(Rotate(g, ox, oy), ox, oy) == HalfTurned(g, ox, oy)
  {
    var r2 := Rotate(Rotate(g, ox, oy), ox, oy);
    var t := HalfTurned(g, ox, oy);
    HalfTurn(g, ox, oy);
    forall a | 0 <= a < |g|
      ensures r2[a] == t[a]
    {
      forall b | 0 <= b < Width(g)
        ensures r2[a][b] == t[a][b]
      {
      }
    }
  }

  /** Two half turns give back a grid whose cells sit at the origin plus their slots. */
  lemma HalfTurnTwice(g: Grid, ox: int, oy: int)
    requires Rectangular(g) && Placed(g, ox, oy)
    ensures Rectangular(HalfTurned(g, ox, oy)) && HalfTurned(HalfTurned(g, ox, oy), ox, oy) == g
  {
    var t := HalfTurned(g, ox, oy);
    assert Rectangular(t);
    var tt := HalfTurned(t, ox, oy);
    forall a | 0 <= a < |g|
      ensures tt[a] == g[a]
    {
      forall b | 0 <= b < |g[a]|
        ensures tt[a][b] == g[a][b]
      {
        var a2, b2 := |g| - 1 - a, Width(g) - 1 - b;
        assert t[a2][b2] == MoveTo(g[a][b], ox + b2, oy + a2);
        assert Get(g, b, a) == g[a][b];
        MoveToPlaced(g[a][b], ox + b2, oy + a2, ox + b, oy + a);
      }
    }
  }

  /**
   * Four quarter turns give back the grid, for a rectangular grid whose cells
   * already sit at the origin plus their slots (as a shape's cells do).
   */
  lemma FourTurnsIdentity(g: Grid, ox: int, oy: int)
    requires Rectangular(g) && Placed(g, ox, oy)
    ensures Rotate(Rotate(Rotate(Rotate(g, ox, oy), ox, oy), ox, oy), ox, oy) == g
  {
    if Height(g) > 0 && Width(g) > 0 {
      var r2 := Rotate(Rotate(g, ox, oy), ox, oy);
      TwoTurnsShape(g, ox, oy);
      TwoTurnsHalfTurn(g, ox, oy);
      TwoTurnsHalfTurn(r2, ox, oy);
      HalfTurnTwice(g, ox, oy);
    }
  }

  /** Moving a cell away and then to where it already sat gives it back. */
  lemma MoveToPlaced(c: Option<Cell>, x1: int, y1: int, x: int, y: int)
    requires c.Some? ==> c.value.x == x && c.value.y == y
    ensures MoveTo(MoveTo(c, x1, y1), x, y) == c
  {
  }

  /** Two quarter turns of a rectangular grid with rows and columns keep its dimensions and rectangularity. */
  lemma TwoTurnsShape(g: Grid, ox: int, oy: int)
    requires Rectangular(g) && Height(g) > 0 && Width(g) > 0
    ensures var r2 := Rotate(Rotate(g, ox, oy), ox, oy);
            Height(r2) == Height(g) && Rectangular(r2) && Width(r2) == Width(g)
  {
    var r1 := Rotate(g, ox, oy);
    assert Height(r1) > 0 && Width(r1) > 0;
  }

  /** The present positions of a grid, as a set. */
  function PresentSet(g: Grid): set<Slot>
  {
    set y, x | 0 <= y < |g| && 0 <= x < |g[y]| && g[y][x].Some? :: (x, y)
  }

  /** Where the quarter turn sends a slot of a grid of height h. */
  function Turn(p: Slot, h: int): Slot
  {
    (h - 1 - p.1, p.0)
  }

  lemma {:induction false} TurnImageCard(s: set<Slot>, h: int)
    ensures |set p | p in s :: Turn(p, h)| == |s|
    decreases |s|
  {
    if s != {} {
      var p :| p in s;
      var s' := s - {p};
      TurnImageCard(s', h);
      var img := set q | q in s :: Turn(q, h);
      var img' := set q | q in s' :: Turn(q, h);
      assert img == img' + {Turn(p, h)};
      assert Turn(p, h) !in img';
    }
  }

  lemma {:induction false} DistinctCard(s: seq<Slot>)
    requires Sorted(s)
    ensures |set p | p in s| == |s|
    decreases |s|
  {
    if |s| > 0 {
      var t := s[1..];
      assert Sorted(t);
      DistinctCard(t);
      assert (set p | p in s) == (set p | p in t) + {s[0]};
      assert s[0] !in t;
    }
  }

  /** Iteration visits each present position exactly once, so it yields as many cells as there are present positions. */
  lemma SlotsCount(g: Grid)
    ensures |Slots(g)| == |PresentSet(g)|
  {
    SlotsSpec(g);
    DistinctCard(Slots(g));
    forall p | p in PresentSet(g)
      ensures p in Slots(g)
    {
      assert Get(g, p.0, p.1).Some?;
    }
    forall p | p in Slots(g)
      ensures p in PresentSet(g)
    {
      assert (p.0, p.1) in Slots(g);
      assert Get(g, p.0, p.1).Some?;
    }
    assert (set p | p in Slots(g)) == PresentSet(g);
  }

  /** A quarter turn of a rectangular grid keeps the number of present cells. */
  lemma RotatePreservesCount(g: Grid, ox: int, oy: int)
    requires Rectangular(g)
    ensures |Iterate(Rotate(g, ox, oy))| == |Iterate(g)|
  {
    var r := Rotate(g, ox, oy);
    SlotsCount(g);
    SlotsCount(r);
    if Height(g) > 0 && Width(g) > 0 {
      var h := Height(g);
      RotateGet(g, ox, oy);
      var img := set p | p in PresentSet(g) :: Turn(p, h);
      forall q | q in PresentSet(r)
        ensures q in img
      {
        assert Get(r, q.0, q.1).Some?;
        var p := (q.1, h - 1 - q.0);
        assert Get(g, p.0, p.1).Some?;
        assert p in PresentSet(g);
        assert Turn(p, h) == q;
      }
      forall p | p in PresentSet(g)
        ensures Turn(p, h) in PresentSet(r)
      {
        assert Get(g, p.0, p.1).Some?;
        assert Get(r, h - 1 - p.1, p.0).Some?;
      }
      assert PresentSet(r) == img;
      TurnImageCard(PresentSet(g), h);
    }
  }
}
