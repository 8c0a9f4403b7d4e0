/**
 * A sparse two-dimensional container of cells (src/CellGrid.jsx).
 *
 * Rows are stored top to bottom and each row holds optional cells; an unset
 * slot reads as `None`, like the source's `null`/`undefined`. A row the
 * source never created is an empty row here.
 */
module Grids {
  import opened Wrappers
  import opened Cells

  type Row = seq<Option<Cell>>
  type Grid = seq<Row>

  /** The occupancy pattern of a grid, the `scheme` a shape is built from. */
  type Mask = seq<seq<bool>>

  /** A (column, row) position. */
  type Slot = (int, int)

  /** The number of rows. */
  function Height(g: Grid): nat
  {
    |g|
  }

  /** The length of the first row; 0 when there are no rows. */
  function Width(g: Grid): nat
  {
    if |g| == 0 then 0 else |g[0]|
  }

  predicate InRange(g: Grid, x: int, y: int)
  {
    0 <= y < |g| && 0 <= x < |g[y]|
  }

  /** Every row has the length of the first row. */
  predicate Rectangular(g: Grid)
  {
    forall i :: 0 <= i < |g| ==> |g[i]| == Width(g)
  }

  /**
   * The cell at (x, y). Total: a missing row, a missing column or a
   * negative coordinate reads as `None`.
   */
  function Get(g: Grid, x: int, y: int): (r: Option<Cell>)
    ensures r.Some? ==> InRange(g, x, y)
    ensures InRange(g, x, y) ==> r == g[y][x]
  {
    if InRange(g, x, y) then g[y][x] else None
  }

  /** Grids with one mask have cells in the same slots. */
  lemma SameMask(g: Grid, h: Grid)
    requires MaskOf(g) == MaskOf(h)
    ensures forall k, i :: Get(g, k, i).Some? <==> Get(h, k, i).Some?
  {
    forall k, i
      ensures Get(g, k, i).Some? <==> Get(h, k, i).Some?
    {
      assert InRange(g, k, i) ==> MaskOf(g)[i][k] == Get(g, k, i).Some?;
      assert InRange(h, k, i) ==> MaskOf(h)[i][k] == Get(h, k, i).Some?;
    }
  }

  /** Two grids with one mask whose present cells agree are equal. */
  lemma GridExt(g: Grid, h: Grid)
    requires MaskOf(g) == MaskOf(h)
    requires forall x, y :: Get(g, x, y).Some? ==> Get(g, x, y) == Get(h, x, y)
    ensures g == h
  {
    assert |g| == |MaskOf(g)| == |h|;
    forall i | 0 <= i < |g|
      ensures g[i] == h[i]
    {
      assert |g[i]| == |MaskOf(g)[i]| == |h[i]|;
      forall k | 0 <= k < |g[i]|
        ensures g[i][k] == h[i][k]
      {
        assert MaskOf(g)[i][k] == g[i][k].Some? && MaskOf(h)[i][k] == h[i][k].Some?;
        assert g[i][k].Some? ==> Get(g, k, i) == g[i][k] && Get(h, k, i) == h[i][k];
      }
    }
  }

  /**
   * Writes `c` at (x, y), creating the row and padding it with unset
   * slots as needed. A negative row is not stored, and a negative column
   * still creates its row but stores nothing in it. (The source keeps
   * either write as an array property outside the index range: `get` at
   * that same position reads it back, while the iterator, `height` and
   * `width` never see it. This model stores and reads nothing there.)
   */
  function Set(g: Grid, x: int, y: int, c: Option<Cell>): (r: Grid)
    ensures x >= 0 && y >= 0 ==> Get(r, x, y) == c
    ensures forall x', y' :: x' != x || y' != y ==> Get(r, x', y') == Get(g, x', y')
    ensures Height(r) == if 0 <= y && |g| <= y then y + 1 else |g|
    ensures forall i :: 0 <= i < |g| && i != y ==> r[i] == g[i]
    ensures 0 <= y < |g| ==> |r[y]| == if 0 <= x && |g[y]| <= x then x + 1 else |g[y]|
  {
    if y < 0 then g
    else
      var rows := if y < |g| then g else g + seq(y + 1 - |g|, _ => []);
      if x < 0 then rows
      else
        var row := if x < |rows[y]| then rows[y] else rows[y] + seq(x + 1 - |rows[y]|, _ => None);
        rows[y := row[x := c]]
  }

  /** One write of a batch: value `c` at (x, y). */
  datatype Write = Write(x: int, y: int, c: Option<Cell>)

  /** Performs the writes in order. */
  function SetAll(g: Grid, ws: seq<Write>): Grid
    decreases |ws|
  {
    if |ws| == 0 then g
    else
      var w := ws[|ws| - 1];
      Set(SetAll(g, ws[..|ws| - 1]), w.x, w.y, w.c)
  }

  /** The value the last write aimed at (x, y) stores, or `default` when none is. */
  function LastWrite(ws: seq<Write>, x: int, y: int, default: Option<Cell>): Option<Cell>
    decreases |ws|
  {
    if |ws| == 0 then default
    else if ws[|ws| - 1].x == x && ws[|ws| - 1].y == y then ws[|ws| - 1].c
    else LastWrite(ws[..|ws| - 1], x, y, default)
  }

  /** A batch of writes reads back as its last write to each position. */
  lemma {:induction false} GetSetAll(g: Grid, ws: seq<Write>, x: int, y: int)
    ensures Get(SetAll(g, ws), x, y) == if x < 0 || y < 0 then None else LastWrite(ws, x, y, Get(g, x, y))
    decreases |ws|
  {
    if |ws| > 0 {
      GetSetAll(g, ws[..|ws| - 1], x, y);
    }
  }

  /** Writes into existing rows (or negative ones) never add rows. */
  lemma {:induction false} SetAllKeepsHeight(g: Grid, ws: seq<Write>)
    requires forall j :: 0 <= j < |ws| ==> ws[j].y < |g|
    ensures Height(SetAll(g, ws)) == Height(g)
    decreases |ws|
  {
    if |ws| > 0 {
      SetAllKeepsHeight(g, ws[..|ws| - 1]);
    }
  }

  /** When every write aimed at (x, y) stores `v`, the last one does too. */
  lemma {:induction false} LastWriteUniform(ws: seq<Write>, x: int, y: int, default: Option<Cell>, v: Option<Cell>)
    requires forall j :: 0 <= j < |ws| && ws[j].x == x && ws[j].y == y ==> ws[j].c == v
    ensures LastWrite(ws, x, y, default) ==
            if exists j :: 0 <= j < |ws| && ws[j].x == x && ws[j].y == y then v else default
    decreases |ws|
  {
    if |ws| > 0 {
      var init := ws[..|ws| - 1];
      LastWriteUniform(init, x, y, default, v);
      if !(ws[|ws| - 1].x == x && ws[|ws| - 1].y == y) {
        if exists j :: 0 <= j < |ws| && ws[j].x == x && ws[j].y == y {
          var j :| 0 <= j < |ws| && ws[j].x == x && ws[j].y == y;
          assert init[j] == ws[j];
        }
      }
    }
  }

  // ---------------------------------------------------------------------
  // Occupancy and row-major order

  /** The occupancy mask: `true` exactly where a cell is present. */
  function MaskOf(g: Grid): (m: Mask)
    ensures |m| == |g|
    ensures forall i :: 0 <= i < |g| ==> |m[i]| == |g[i]|
    ensures forall i, k :: 0 <= i < |g| && 0 <= k < |g[i]| ==> m[i][k] == g[i][k].Some?
  {
    seq(|g|, i requires 0 <= i < |g| => seq(|g[i]|, k requires 0 <= k < |g[i]| => g[i][k].Some?))
  }

  /** Strict row-major order: an earlier row, or the same row and an earlier column. */
  predicate Before(p: Slot, q: Slot)
  {
    p.1 < q.1 || (p.1 == q.1 && p.0 < q.0)
  }

  predicate Sorted(s: seq<Slot>)
  {
    forall a, b :: 0 <= a < b < |s| ==> Before(s[a], s[b])
  }

  function RowTrueSlots(row: seq<bool>, i: int, k: nat): seq<Slot>
    decreases |row| - k
  {
    if k >= |row| then [] else (if row[k] then [(k, i)] else []) + RowTrueSlots(row, i, k + 1)
  }

  function TrueSlotsFrom(m: Mask, i: nat): seq<Slot>
    decreases |m| - i
  {
    if i >= |m| then [] else RowTrueSlots(m[i], i, 0) + TrueSlotsFrom(m, i + 1)
  }

  /** The positions a mask marks, row by row and columns first within a row. */
  function TrueSlots(m: Mask): seq<Slot>
  {
    TrueSlotsFrom(m, 0)
  }

  lemma {:induction false} RowTrueSlotsSpec(row: seq<bool>, i: int, k: nat)
    ensures forall p :: p in RowTrueSlots(row, i, k) <==> p.1 == i && k <= p.0 < |row| && row[p.0]
    ensures Sorted(RowTrueSlots(row, i, k))
    decreases |row| - k
  {
    if k < |row| {
      RowTrueSlotsSpec(row, i, k + 1);
      var rest := RowTrueSlots(row, i, k + 1);
      var head: seq<Slot> := if row[k] then [(k, i)] else [];
      SortedConcat(head, rest);
    }
  }

  lemma {:induction false} TrueSlotsFromSpec(m: Mask, i: nat)
    ensures forall p :: p in TrueSlotsFrom(m, i) <==> i <= p.1 < |m| && 0 <= p.0 < |m[p.1]| && m[p.1][p.0]
    ensures Sorted(TrueSlotsFrom(m, i))
    decreases |m| - i
  {
    if i < |m| {
      RowTrueSlotsSpec(m[i], i, 0);
      TrueSlotsFromSpec(m, i + 1);
      SortedConcat(RowTrueSlots(m[i], i, 0), TrueSlotsFrom(m, i + 1));
    }
  }

  lemma SortedConcat(a: seq<Slot>, b: seq<Slot>)
    requires Sorted(a) && Sorted(b)
    requires forall p, q :: p in a && q in b ==> Before(p, q)
    ensures Sorted(a + b)
  {
    var s := a + b;
    forall u, v | 0 <= u < v < |s|
      ensures Before(s[u], s[v])
    {
      if v < |a| {
        assert s[u] == a[u] && s[v] == a[v];
      } else if u >= |a| {
        assert s[u] == b[u - |a|] && s[v] == b[v - |a|];
      } else {
        assert s[u] == a[u] && s[v] == b[v - |a|];
      }
    }
  }

  /** The present positions of a grid, in the order the grid iterates them. */
  function Slots(g: Grid): seq<Slot>
  {
    TrueSlots(MaskOf(g))
  }

  /**
   * The positions iteration visits are exactly the present ones, in strict
   * row-major order (so each one once).
   */
  lemma SlotsSpec(g: Grid)
    ensures forall x, y :: (x, y) in Slots(g) <==> Get(g, x, y).Some?
    ensures Sorted(Slots(g))
  {
    TrueSlotsFromSpec(MaskOf(g), 0);
    forall x, y
      ensures (x, y) in Slots(g) <==> Get(g, x, y).Some?
    {
      assert (x, y).1 == y && (x, y).0 == x;
    }
  }

  /** The cells at the given positions. */
  function CellsAt(g: Grid, ps: seq<Slot>): (cs: seq<Cell>)
    requires forall j :: 0 <= j < |ps| ==> Get(g, ps[j].0, ps[j].1).Some?
    ensures |cs| == |ps|
  {
    seq(|ps|, j requires 0 <= j < |ps| => Get(g, ps[j].0, ps[j].1).value)
  }

  /** What iterating a grid yields: its present cells in row-major order. */
  function Iterate(g: Grid): (cs: seq<Cell>)
    ensures |cs| == |Slots(g)|
  {
    SlotsSpec(g);
    CellsAt(g, Slots(g))
  }

  /** The present positions strictly after the iteration cursor (cx, cy). */
  function SlotsAfter(g: Grid, cx: int, cy: int): seq<Slot>
    requires cx >= -1 && cy >= 0
  {
    (if cy < |g| then RowTrueSlots(MaskOf(g)[cy], cy, cx + 1) else []) + TrueSlotsFrom(MaskOf(g), cy + 1)
  }

  /**
   * One cursor step of the grid's iterator: one column right, or column 0
   * of the next row when the current row is missing or exhausted.
   */
  function Advance(g: Grid, cx: int, cy: int): (int, int)
  {
    if !(0 <= cy < |g|) || |g[cy]| == 0 || cx + 1 == |g[cy]| then (0, cy + 1) else (cx + 1, cy)
  }

  /** The cursor positions the iterator can be at before a step. */
  predicate Cursor(g: Grid, cx: int, cy: int)
  {
    && -1 <= cx && 0 <= cy
    && (cx == -1 ==> cy == 0)
    && (cy < |g| || cy == 0)
    && (cy < |g| ==> cx < |g[cy]| || |g[cy]| == 0)
  }

  /** A step either lands on a row and passes over that slot, or runs past the last row with nothing left. */
  lemma AdvanceSpec(g: Grid, cx: int, cy: int)
    requires Cursor(g, cx, cy)
    ensures Advance(g, cx, cy).1 >= |g| ==> SlotsAfter(g, cx, cy) == []
    ensures Advance(g, cx, cy).1 < |g| ==>
              Cursor(g, Advance(g, cx, cy).0, Advance(g, cx, cy).1) &&
              SlotsAfter(g, cx, cy) ==
                (if Get(g, Advance(g, cx, cy).0, Advance(g, cx, cy).1).Some?
                 then [Advance(g, cx, cy)] else []) + SlotsAfter(g, Advance(g, cx, cy).0, Advance(g, cx, cy).1)
  {
    if Advance(g, cx, cy).1 != cy {
      RowEnd(g, cx, cy);
      if cy + 1 < |g| {
        RowStart(g, cy + 1);
      }
    } else {
      SlotsAt(g, cx + 1, cy);
    }
  }

  /** The slots from row y on are its first slot, when present, followed by the slots after it. */
  lemma RowStart(g: Grid, y: nat)
    requires y < |g|
    ensures TrueSlotsFrom(MaskOf(g), y) == (if Get(g, 0, y).Some? then [(0, y)] else []) + SlotsAfter(g, 0, y)
  {
    SlotsAt(g, 0, y);
  }

  /** Past the last column of a row nothing of that row is left. */
  lemma RowEnd(g: Grid, cx: int, cy: int)
    requires Cursor(g, cx, cy) && Advance(g, cx, cy) == (0, cy + 1)
    ensures SlotsAfter(g, cx, cy) == TrueSlotsFrom(MaskOf(g), cy + 1)
  {
    if cy < |g| {
      assert RowTrueSlots(MaskOf(g)[cy], cy, cx + 1) == [];
    }
  }

  /** The slots from (x, y) on are that slot, when present, followed by the slots after it. */
  lemma SlotsAt(g: Grid, x: nat, y: nat)
    requires y < |g| && (x < |g[y]| || x == 0)
    ensures RowTrueSlots(MaskOf(g)[y], y, x) + TrueSlotsFrom(MaskOf(g), y + 1) ==
              (if Get(g, x, y).Some? then [(x, y)] else []) + SlotsAfter(g, x, y)
  {
    var m := MaskOf(g);
    if x < |g[y]| {
      assert m[y][x] == Get(g, x, y).Some?;
      assert RowTrueSlots(m[y], y, x) == (if m[y][x] then [(x, y)] else []) + RowTrueSlots(m[y], y, x + 1);
    } else {
      assert RowTrueSlots(m[y], y, 0) == [] == RowTrueSlots(m[y], y, 1);
    }
  }

  /**
   * Drains the grid's iterator: the cursor starts before the first column
   * of row 0, advances one step at a time, skips unset slots and is done
   * once it passes the last row.
   */
  method Collect(g: Grid) returns (out: seq<Cell>)
    ensures out == Iterate(g)
  {
    var cx, cy := -1, 0;
    var done := false;
    ghost var seen: seq<Slot> := [];
    out := [];
    while !done
      invariant !done ==> Cursor(g, cx, cy)
      invariant forall j :: 0 <= j < |seen| ==> Get(g, seen[j].0, seen[j].1).Some?
      invariant out == CellsAt(g, seen)
      invariant !done ==> seen + SlotsAfter(g, cx, cy) == Slots(g)
      invariant done ==> seen == Slots(g)
      decreases !done, |g| + 1 - cy, if 0 <= cy < |g| then |g[cy]| - cx else 0
    {
      ghost var rest := SlotsAfter(g, cx, cy);
      AdvanceSpec(g, cx, cy);
      var next := Advance(g, cx, cy);
      cx, cy := next.0, next.1;
      if cy >= |g| {
        assert rest == [];
        assert seen + rest == seen;
        done := true;
      } else {
        var v := Get(g, cx, cy);
        if v.Some? {
          assert rest == [(cx, cy)] + SlotsAfter(g, cx, cy);
          assert (seen + [(cx, cy)]) + SlotsAfter(g, cx, cy) == seen + rest;
          assert CellsAt(g, seen + [(cx, cy)]) == CellsAt(g, seen) + [v.value];
          out := out + [v.value];
          seen := seen + [(cx, cy)];
        } else {
          assert rest == SlotsAfter(g, cx, cy);
        }
      }
    }
  }

  // ---------------------------------------------------------------------
  // Cell-wise maps

  function MapCell(c: Option<Cell>, f: Cell -> Cell): Option<Cell>
  {
    if c.Some? then Some(f(c.value)) else None
  }

  /** Applies `f` to every present cell, keeping the layout. */
  function MapCells(g: Grid, f: Cell -> Cell): (r: Grid)
    ensures |r| == |g| && forall i :: 0 <= i < |g| ==> |r[i]| == |g[i]|
    ensures forall x, y :: Get(r, x, y) == MapCell(Get(g, x, y), f)
    ensures MaskOf(r) == MaskOf(g)
  {
    var r := seq(|g|, i requires 0 <= i < |g| => seq(|g[i]|, k requires 0 <= k < |g[i]| => MapCell(g[i][k], f)));
    assert forall x, y :: Get(r, x, y) == MapCell(Get(g, x, y), f);
    assert forall i :: 0 <= i < |g| ==> MaskOf(r)[i] == MaskOf(g)[i];
    r
  }

  function UnresolveCell(c: Cell): Cell
  {
    c.(resolved := c.IsEmpty())
  }

  /** Every present cell is resolved exactly when it is empty. */
  ghost predicate ResolvedIffEmpty(g: Grid)
  {
    forall x, y :: Get(g, x, y).Some? ==> (Get(g, x, y).value.resolved <==> Get(g, x, y).value.IsEmpty())
  }

  /**
   * Resets the gravity pass: occupied cells become unresolved, empty ones
   * resolved; nothing else about any cell changes.
   */
  function Unresolve(g: Grid): (r: Grid)
    ensures ResolvedIffEmpty(r)
    ensures MaskOf(r) == MaskOf(g)
    ensures forall x, y :: Get(g, x, y).Some? ==> Get(r, x, y).value.(resolved := Get(g, x, y).value.resolved) == Get(g, x, y).value
  {
    MapCells(g, UnresolveCell)
  }

  /** Unresolving twice is unresolving once. */
  lemma UnresolveIdempotent(g: Grid)
    ensures Unresolve(Unresolve(g)) == Unresolve(g)
  {
    var u := Unresolve(g);
    var uu := Unresolve(u);
    assert |uu| == |u|;
    forall i | 0 <= i < |u|
      ensures uu[i] == u[i]
    {
      assert |uu[i]| == |u[i]|;
      forall k | 0 <= k < |u[i]|
        ensures uu[i][k] == u[i][k]
      {
        assert Get(uu, k, i) == MapCell(Get(u, k, i), UnresolveCell);
      }
    }
  }

  /** Deletes every cell. */
  function Clear(g: Grid): (r: Grid)
    ensures Height(r) == 0 && Width(r) == 0
    ensures forall x, y :: Get(r, x, y).None?
    ensures Iterate(r) == []
  {
    []
  }

  // ---------------------------------------------------------------------
  // Queries

  /**
   * A grid with no rows or no columns is empty; otherwise it is empty when
   * every cell its iteration yields is empty.
   */
  function IsEmpty(g: Grid): (r: bool)
    ensures r <==> Width(g) == 0 || Height(g) == 0 ||
                   forall x, y :: Get(g, x, y).Some? ==> Get(g, x, y).value.IsEmpty()
  {
    if Width(g) == 0 || Height(g) == 0 then true
    else
      var cs := Iterate(g);
      IterateSpec(g);
      forall j :: 0 <= j < |cs| ==> cs[j].IsEmpty()
  }

  /**
   * A grid with no rows or no columns is not full; otherwise it is full when
   * no cell its iteration yields is empty. Unset slots do not count.
   */
  function IsFull(g: Grid): (r: bool)
    ensures r <==> Width(g) > 0 && Height(g) > 0 &&
                   forall x, y :: Get(g, x, y).Some? ==> !Get(g, x, y).value.IsEmpty()
  {
    if Width(g) == 0 || Height(g) == 0 then false
    else
      var cs := Iterate(g);
      IterateSpec(g);
      forall j :: 0 <= j < |cs| ==> !cs[j].IsEmpty()
  }

  /** Iteration yields exactly the present cells: each yielded cell is present, each present one is yielded. */
  lemma IterateSpec(g: Grid)
    ensures forall j :: 0 <= j < |Iterate(g)| ==> Get(g, Slots(g)[j].0, Slots(g)[j].1) == Some(Iterate(g)[j])
    ensures forall x, y :: Get(g, x, y).Some? ==> exists j :: 0 <= j < |Iterate(g)| && Iterate(g)[j] == Get(g, x, y).value
  {
    SlotsSpec(g);
    var s := Slots(g);
    forall x, y | Get(g, x, y).Some?
      ensures exists j :: 0 <= j < |Iterate(g)| && Iterate(g)[j] == Get(g, x, y).value
    {
      assert (x, y) in s;
      var j :| 0 <= j < |s| && s[j] == (x, y);
      assert Iterate(g)[j] == Get(g, x, y).value;
    }
  }

  /** Makes `row` the first row, creating it when the grid has no rows. */
  function AddRow(g: Grid, row: Row): (r: Grid)
    ensures Height(r) == if |g| == 0 then 1 else |g|
    ensures r[0] == row
    ensures forall i :: 1 <= i < |g| ==> r[i] == g[i]
  {
    if |g| == 0 then [row] else g[0 := row]
  }

  /**
   * A one-row grid holding the last row (an empty row when there are no
   * rows, which is then not full).
   */
  function Last(g: Grid): (r: Grid)
    ensures Height(r) == 1
    ensures |g| > 0 ==> r[0] == g[|g| - 1]
    ensures |g| == 0 ==> Width(r) == 0 && !IsFull(r)
  {
    AddRow([], if |g| > 0 then g[|g| - 1] else [])
  }

  /** A row of `n` fresh cells, each at its own column of row 0. */
  function FreshRow(n: nat): (row: Row)
    ensures |row| == n
    ensures forall k :: 0 <= k < n ==> row[k] == Some(New(k, 0))
  {
    seq(n, k requires 0 <= k < n => Some(New(k, 0)))
  }

  /** The grid without its last row (unchanged when it has none). */
  function Pop(g: Grid): Grid
  {
    if |g| == 0 then g else g[..|g| - 1]
  }

  /**
   * Shifting as written: the last row is popped, then the call meant to put
   * a fresh row on top removes the first row instead. Returns the old last
   * row as a one-row grid.
   */
  function ShiftAsWritten(g: Grid): (r: (Grid, Grid))
    ensures r.1 == Last(g)
    ensures Height(r.0) == if |g| <= 2 then 0 else |g| - 2
    ensures forall i :: 0 <= i < Height(r.0) ==> r.0[i] == g[i + 1]
  {
    var popped := Pop(g);
    (if |popped| == 0 then popped else popped[1..], Last(g))
  }

  /**
   * Shifts the grid down by one row: the last row is dropped, a row of fresh
   * cells (as wide as the grid left after the drop) goes on top, and the old
   * last row is returned as a one-row grid.
   */
  function Shift(g: Grid): (r: (Grid, Grid))
    ensures r.1 == Last(g)
    ensures Height(r.0) == if |g| == 0 then 1 else |g|
    ensures forall i :: 1 <= i < |g| ==> r.0[i] == g[i - 1]
    ensures |r.0[0]| == if |g| >= 2 then |g[0]| else 0
    ensures forall k :: 0 <= k < |r.0[0]| ==> r.0[0][k] == Some(New(k, 0))
  {
    var popped := Pop(g);
    ([FreshRow(Width(popped))] + popped, Last(g))
  }

  /**
   * The shift as written loses a row that should stay: on any grid of two or
   * more rows it returns two rows fewer, while the documented shift keeps
   * the height.
   */
  lemma ShiftAsWrittenLosesRows(g: Grid)
    requires |g| >= 2
    ensures Height(ShiftAsWritten(g).0) == Height(g) - 2
    ensures Height(Shift(g).0) == Height(g)
    ensures ShiftAsWritten(g).0 != Shift(g).0
  {
  }

  /** Every present cell sits at the origin (ox, oy) plus its slot. */
  ghost predicate Placed(g: Grid, ox: int, oy: int)
  {
    forall x, y :: Get(g, x, y).Some? ==> Get(g, x, y).value.x == ox + x && Get(g, x, y).value.y == oy + y
  }

  /** The writes that put each present cell of `cells` at its position relative to (ox, oy). */
  function ShapeWrites(cells: Grid, ox: int, oy: int): (ws: seq<Write>)
    ensures |ws| == |Slots(cells)|
    ensures forall j :: 0 <= j < |ws| ==> ws[j].c.Some? && ws[j].c == Get(cells, Slots(cells)[j].0, Slots(cells)[j].1)
    ensures forall j :: 0 <= j < |ws| ==> ws[j].x == ws[j].c.value.x - ox && ws[j].y == ws[j].c.value.y - oy
  {
    var cs := Iterate(cells);
    IterateSpec(cells);
    seq(|cs|, j requires 0 <= j < |cs| => Write(cs[j].x - ox, cs[j].y - oy, Some(cs[j])))
  }

  /**
   * Inserts a shape's cells (its grid `cells`, its origin (ox, oy)): each
   * present cell goes to its own coordinates minus the origin. For a shape
   * whose cells sit at origin plus slot, each lands on its slot and every
   * other position keeps its cell.
   */
  function AddShape(g: Grid, cells: Grid, ox: int, oy: int): (r: Grid)
    ensures Placed(cells, ox, oy) ==>
              forall x, y :: Get(r, x, y) == if Get(cells, x, y).Some? then Get(cells, x, y) else Get(g, x, y)
  {
    AddShapePlaced(g, cells, ox, oy);
    SetAll(g, ShapeWrites(cells, ox, oy))
  }

  lemma AddShapePlaced(g: Grid, cells: Grid, ox: int, oy: int)
    ensures Placed(cells, ox, oy) ==>
              forall x, y :: Get(SetAll(g, ShapeWrites(cells, ox, oy)), x, y) ==
                             if Get(cells, x, y).Some? then Get(cells, x, y) else Get(g, x, y)
  {
    if Placed(cells, ox, oy) {
      forall x, y
        ensures Get(SetAll(g, ShapeWrites(cells, ox, oy)), x, y) ==
                  if Get(cells, x, y).Some? then Get(cells, x, y) else Get(g, x, y)
      {
        AddShapePlacedAt(g, cells, ox, oy, x, y);
      }
    }
  }

  lemma AddShapePlacedAt(g: Grid, cells: Grid, ox: int, oy: int, x: int, y: int)
    requires Placed(cells, ox, oy)
    ensures Get(SetAll(g, ShapeWrites(cells, ox, oy)), x, y) ==
              if Get(cells, x, y).Some? then Get(cells, x, y) else Get(g, x, y)
  {
    var ws := ShapeWrites(cells, ox, oy);
    GetSetAll(g, ws, x, y);
    ShapeWritesAim(cells, ox, oy, x, y);
    LastWriteUniform(ws, x, y, Get(g, x, y), Get(cells, x, y));
  }

  /** For cells placed at (ox, oy), the writes aimed at (x, y) are the ones carrying the cell at slot (x, y), and there is one exactly when that slot holds a cell. */
  lemma ShapeWritesAim(cells: Grid, ox: int, oy: int, x: int, y: int)
    requires Placed(cells, ox, oy)
    ensures var ws := ShapeWrites(cells, ox, oy);
            forall j :: 0 <= j < |ws| && ws[j].x == x && ws[j].y == y ==> ws[j].c == Get(cells, x, y)
    ensures var ws := ShapeWrites(cells, ox, oy);
            (exists j :: 0 <= j < |ws| && ws[j].x == x && ws[j].y == y) <==> Get(cells, x, y).Some?
  {
    var ws := ShapeWrites(cells, ox, oy);
    var s := Slots(cells);
    forall j | 0 <= j < |ws|
      ensures ws[j].x == s[j].0 && ws[j].y == s[j].1
    {
      assert Get(cells, s[j].0, s[j].1).Some?;
    }
    if Get(cells, x, y).Some? {
      SlotsSpec(cells);
      var j :| 0 <= j < |s| && s[j] == (x, y);
      assert ws[j].x == x && ws[j].y == y;
    }
  }

  // ---------------------------------------------------------------------
  // Neighbours

  function Above(g: Grid, c: Cell): Option<Cell> { Get(g, c.x, c.y - 1) }
  function Below(g: Grid, c: Cell): Option<Cell> { Get(g, c.x, c.y + 1) }
  function LeftOf(g: Grid, c: Cell): Option<Cell> { Get(g, c.x - 1, c.y) }
  function RightOf(g: Grid, c: Cell): Option<Cell> { Get(g, c.x + 1, c.y) }

  /**
   * In a grid whose cells sit at their own slots, the neighbour lookups are
   * inverse to each other: the cell below the cell above c is c, and the
   * cell right of the cell left of c is c.
   */
  lemma NeighboursInverse(g: Grid, c: Cell)
    requires Placed(g, 0, 0) && Get(g, c.x, c.y) == Some(c)
    ensures Above(g, c).Some? ==> Below(g, Above(g, c).value) == Some(c)
    ensures Below(g, c).Some? ==> Above(g, Below(g, c).value) == Some(c)
    ensures LeftOf(g, c).Some? ==> RightOf(g, LeftOf(g, c).value) == Some(c)
    ensures RightOf(g, c).Some? ==> LeftOf(g, RightOf(g, c).value) == Some(c)
  {
  }

  // ---------------------------------------------------------------------
  // Rotation

  function MoveTo(c: Option<Cell>, x: int, y: int): Option<Cell>
  {
    if c.Some? then Some(Move(c.value, x, y)) else None
  }

  /**
   * Turns the grid a quarter clockwise: old column i, row k becomes new row
   * i, column height-1-k, and each cell is moved to the origin (ox, oy) of
   * the shape owning the cells plus its new slot. A grid without rows or
   * columns is left as it is.
   */
  function Rotate(g: Grid, ox: int, oy: int): (r: Grid)
    ensures Height(g) == 0 || Width(g) == 0 ==> r == g
    ensures Height(g) > 0 && Width(g) > 0 ==>
              Height(r) == Width(g) && Rectangular(r) && Width(r) == Height(g)
    ensures Height(g) > 0 && Width(g) > 0 ==>
              forall i, k :: 0 <= i < Width(g) && 0 <= k < Height(g) ==>
                MaskOf(r)[i][Height(g) - 1 - k] == Get(g, i, k).Some?
    ensures Height(g) > 0 && Width(g) > 0 ==> Placed(r, ox, oy)
  {
    if Height(g) == 0 || Width(g) == 0 then g
    else
      TurnedShape(g, ox, oy);
      TurnedMask(g, ox, oy);
      TurnedPlaced(g, ox, oy);
      Turned(g, ox, oy)
  }

  /** The turned grid of a grid with rows and columns: new row i, column j holds old column i, row height-1-j. */
  function Turned(g: Grid, ox: int, oy: int): (r: Grid)
    ensures |r| == Width(g) && forall i :: 0 <= i < |r| ==> |r[i]| == Height(g)
    ensures forall i, j :: 0 <= i < Width(g) && 0 <= j < Height(g) ==>
              r[i][j] == MoveTo(Get(g, i, Height(g) - 1 - j), ox + j, oy + i)
  {
    var h := Height(g);
    seq(Width(g), i requires 0 <= i < Width(g) =>
      seq(h, j requires 0 <= j < h => MoveTo(Get(g, i, h - 1 - j), ox + j, oy + i)))
  }

  lemma TurnedShape(g: Grid, ox: int, oy: int)
    requires Height(g) > 0 && Width(g) > 0
    ensures var r := Turned(g, ox, oy);
            Height(r) == Width(g) && Rectangular(r) && Width(r) == Height(g)
  {
  }

  lemma TurnedMask(g: Grid, ox: int, oy: int)
    requires Height(g) > 0 && Width(g) > 0
    ensures forall i, k :: 0 <= i < Width(g) && 0 <= k < Height(g) ==>
              MaskOf(Turned(g, ox, oy))[i][Height(g) - 1 - k] == Get(g, i, k).Some?
  {
    var r := Turned(g, ox, oy);
    var h := Height(g);
    forall i, k | 0 <= i < Width(g) && 0 <= k < h
      ensures MaskOf(r)[i][h - 1 - k] == Get(g, i, k).Some?
    {
      assert r[i][h - 1 - k] == MoveTo(Get(g, i, k), ox + h - 1 - k, oy + i);
    }
  }

  lemma TurnedPlaced(g: Grid, ox: int, oy: int)
    requires Height(g) > 0 && Width(g) > 0
    ensures Placed(Turned(g, ox, oy), ox, oy)
  {
  }
}
