# Tetris board engine, modelled in Dafny

This project models the board engine of a small browser Tetris game in
Dafny 4.11. It covers the five classes under `src/`:

- **Cell**: a grid square. It has an owning shape, a colour, a resolved flag and coordinates.
- **CellGrid**: a sparse grid of rows of cells. It has `get`, `set`, `shift`, `last`, the full and empty tests, a clockwise `rotate` and a row-major iterator.
- **Shape**: a block built from a scheme. It has an origin, `move`, `clone` and a speculative `rotate`.
- **Bag**: the seven-piece randomiser. It has `replenish`, a Fisher–Yates `_shuffle`, `grab` and `peek`.
- **Board**: the rules. It has the collision-checked `move`, `isActiveShape` and `activeShape`, the footprint bookkeeping `deleteScheme`, `addShapeCells` and `shapeMoved`, and the gravity pass `unresolve`, `resolve` and `step`.

Everything is a value:

- A cell names its shape by a `ShapeId`.
- A grid is `seq<seq<Option<Cell>>>`. `None` is a slot that holds no cell: `null`, or an index the source never set. A row the source never created and a row it created empty are both `[]`; the two places where the source tells them apart are listed under "## Left out".
- The board keeps a map from shape identities to shapes.

Source methods that mutate become functions that return the new value. Where the source relies on two objects being shared, the model writes both copies explicitly:

- A shape's cells are the same objects as the board's cells. So `Shape.resolve` becomes `Boards.MarkResolved` on the board plus an update of the shape map.
- `shapeMoved` writes the moved shape's cells into the board.

Two source behaviours are replaced by inputs:

- `Math.random` becomes a sequence of random indices that the caller supplies.
- Fresh shape identities come from a counter kept in the bag.

Modules, one file each:

- `wrappers.dfy`: `Option`.
- `cells.dfy`: `Cells`.
- `grids.dfy`: `Grids`, covering CellGrid and the iterator as a loop.
- `rotation.dfy`: `Rotation`, the facts about `rotate`.
- `shapes.dfy`: `Shapes`.
- `schemes.dfy`: `Schemes`, the seven tetromino schemes of `src/constants.jsx`.
- `bags.dfy`: `Bags`.
- `boards.dfy`: `Boards`, covering get, writes, footprints, `move` and the active shape.
- `gravity.dfy`: `Gravity`, covering `unresolve`, `resolve` and `step`.

### Choices where the code contradicts itself

- **`shape.scheme`** is read by the board (`src/Board.jsx:170`, `:201`), but no shape ever sets it. It is modelled as the occupancy mask of the shape's cells (`Grids.MaskOf`).
- **`cell.clone(shape)`** is called by `Shape.clone` (`src/Shape.jsx:105`), but `Cell` does not define it. It is modelled as a copy of the cell rebound to the new owner (`Cells.Rebind`).
- **Events:**
  - `Shape.move` emits `"change"`.
  - `Board.addShape` listens for `"move"`.
  - `shapeMoved` expects coordinates, not shapes.
  
  In the model, `Boards.Move` calls `ShapeMoved` directly, passing the origin of the snapshot taken before the move.
- **Colours:** `COLORS["DEFAULT"]` and `SHAPES[z].color` both read `undefined` from `src/constants.jsx`. Both are the colour `Undefined`.
- **`resolve` iteration:** the source's `resolve` iterates a grid while moving shapes around inside it. The model visits the positions present when each phase starts, and reads each position's current cell when it reaches it.
- **Four findings** are listed under "## Findings": one in `CellGrid.shift`, two in `Bag.peek` and one in `Bag.replenish`. The rest of the model uses the corrected definitions.

## Model

| member | source | states |
|---|---|---|
| Cells.New | src/Cell.jsx:13-19 | a new cell is empty, resolved, has the default colour and sits at the given coordinates |
| Cells.Clear | src/Cell.jsx:32-37 | clearing gives the fresh cell at the same coordinates: no owner, resolved, default colour |
| Cells.ClearIdempotent | src/Cell.jsx:32-37 | clearing twice is clearing once; the cleared cell is empty and keeps its coordinates |
| Cells.Resolve | src/Cell.jsx:42-44 | the result is resolved and differs from the input in the resolved flag only |
| Cells.Move | src/Cell.jsx:51-54 | the result sits at (x, y) and differs from the input in its coordinates only |
| Cells.MoveRoundTrip | src/Cell.jsx:51-54 | moving a cell away and back to its old coordinates restores it |
| Cells.Rebind | src/Shape.jsx:104-105 | the copy is owned by the new shape (so not empty) and differs from the input in its owner only |
| Grids.Get | src/CellGrid.jsx:21-26 | total: a present cell only within the rows and columns, and inside them exactly the stored entry |
| Grids.Set | src/CellGrid.jsx:43-47 | the written position reads back the value, every other position reads as before, a missing row is created, other rows are untouched |
| Grids.MaskOf | src/Board.jsx:170-177 | the occupancy pattern has the grid's shape and is true exactly at the present cells |
| Grids.SlotsSpec | src/CellGrid.jsx:221-257 | the positions the iterator visits are exactly the present cells, in strictly increasing row-major order (each once) |
| Grids.IterateSpec | src/CellGrid.jsx:221-257 | the j-th iterated cell is the cell at the j-th visited position, and every present cell is yielded |
| Grids.AdvanceSpec | src/CellGrid.jsx:238-252 | one cursor step either runs past the last row with nothing left, or lands on a valid cursor having passed over exactly that slot |
| Grids.Collect | src/CellGrid.jsx:225-257 | draining the iterator cursor by cursor yields exactly the present cells in row-major order |
| Grids.Unresolve | src/CellGrid.jsx:80-84 | afterwards each present cell is resolved exactly when empty; occupancy and every other field are kept |
| Grids.UnresolveIdempotent | src/CellGrid.jsx:80-84 | unresolving twice is unresolving once |
| Grids.Clear | src/CellGrid.jsx:89-91 | the cleared grid has no rows, no cells, and iterates to nothing |
| Grids.IsEmpty | src/CellGrid.jsx:133-140 | true exactly when the width or height is 0, or every present cell is empty |
| Grids.IsFull | src/CellGrid.jsx:147-154 | true exactly when width and height are positive and no present cell is empty |
| Grids.AddRow | src/CellGrid.jsx:33-35 | row 0 becomes the given row, other rows are kept, and a row-less grid gains one row |
| Grids.Last | src/CellGrid.jsx:161-171 | a one-row grid holding the last row; for a row-less grid a zero-width row that is not full |
| Grids.FreshRow | src/CellGrid.jsx:60-63 | one fresh empty cell per column |
| Grids.Shift | src/CellGrid.jsx:49-68 | corrected: returns the last row, keeps the height, moves every row down by one and puts a fresh row on top |
| Grids.ShiftAsWritten | src/CellGrid.jsx:55-68 | as written: returns the last row, and the grid loses both its last and its first row |
| Grids.ShiftAsWrittenLosesRows | src/CellGrid.jsx:58-65 | for two or more rows, the as-written shift is two rows short of the corrected one |
| Grids.ShapeWrites | src/CellGrid.jsx:74-78 | one write per present shape cell, in iteration order, aimed at the cell's position minus the shape origin |
| Grids.AddShape | src/CellGrid.jsx:74-78 | for a shape whose cells sit at origin plus slot, each slot reads the shape's cell where it has one and the old entry elsewhere |
| Grids.AddShapePlaced | src/CellGrid.jsx:74-78 | performing the shape's writes in order has the same overlay effect |
| Grids.NeighboursInverse | src/CellGrid.jsx:98-127 | in a grid whose cells sit at their own slots, below-of-above and right-of-left give the cell back (and conversely) |
| Grids.Rotate | src/CellGrid.jsx:176-202 | a grid with no rows or columns is unchanged; otherwise width and height swap, old (column i, row k) becomes new row i, column height-1-k, and every cell sits at origin plus its new slot |
| Rotation.RotateGet | src/CellGrid.jsx:185-199 | each slot of the turned grid holds the cell from the opposite column, moved to its new slot |
| Rotation.HalfTurn | src/CellGrid.jsx:176-202 | two quarter turns keep the dimensions and hold each cell mirrored through the centre |
| Rotation.TwoTurnsHalfTurn | src/CellGrid.jsx:176-202 | two quarter turns are the direct half turn |
| Rotation.HalfTurnTwice | src/CellGrid.jsx:176-202 | two half turns give back a grid whose cells sit at origin plus slot |
| Rotation.FourTurnsIdentity | src/CellGrid.jsx:176-202 | four quarter turns give back such a grid |
| Rotation.RotatePreservesCount | src/CellGrid.jsx:176-202 | a quarter turn keeps the number of present cells |
| Shapes.FromScheme | src/Shape.jsx:26-47 | origin (0, 0); occupancy equals the scheme; each cell is owned by the shape, of its colour, unresolved and at its slot |
| Shapes.Clone | src/Shape.jsx:95-114 | keeps origin, colour and width; the copy is the bounding box, with the same occupancy for a rectangular grid; its cells are the originals rebound to the copy |
| Shapes.CloneRoundTrip | src/Shape.jsx:95-114 | cloning and cloning back under the original identity restores a well-formed rectangular shape |
| Shapes.FromCell | src/Shape.jsx:54-56 | a clone exactly when the cell names a known shape: that shape's origin, colour and bounding box (and occupancy, for a rectangular shape), with each of its cells rebound to the copy |
| Shapes.FromCellOwnShape | src/Shape.jsx:54-56 | looked up under the owner's own identity, a well-formed rectangular shape comes back unchanged |
| Shapes.Resolve | src/Shape.jsx:62-66 | every cell becomes resolved, occupancy is kept, and nothing else about any cell changes |
| Shapes.Move | src/Shape.jsx:74-88 | the origin becomes (x, y); every cell moves by the same delta; occupancy is kept; a snapshot is reported exactly when not silenced |
| Shapes.MoveRoundTrip | src/Shape.jsx:74-88 | moving a shape and moving it back restores it |
| Shapes.Rotate | src/Shape.jsx:116-121 | a clone (the shape itself is a value and stays as it was) whose grid is turned a quarter clockwise: the cell in column i, row k of the box moves to column height-1-k, row i, rebound to the clone and placed at origin plus its new slot; dimensions swap, the cell count and well-formedness are kept |
| Shapes.SetColor | src/Shape.jsx:151-156 | the shape and every present cell get the new colour; occupancy and the other fields are kept |
| Schemes.CatalogCounts | src/constants.jsx:15-50 | every one of the seven schemes switches on exactly four cells |
| Schemes.CatalogBoxes | src/constants.jsx:15-50 | seven schemes, each a box of at most 4 x 4 with rows of one length |
| Schemes.CatalogDistinct | src/constants.jsx:15-50 | no two schemes are equal |
| Bags.Swap | src/Bag.jsx:91-94 | exchanges two entries and keeps the rest |
| Bags.SwapPermutes | src/Bag.jsx:91-94 | a swap keeps the multiset |
| Bags.ShuffleFrom | src/Bag.jsx:82-98 | keeps the length, and keeps the entries the shuffle has not reached yet |
| Bags.ShuffleFromPermutes | src/Bag.jsx:82-98 | for any index choices below the current index, the shuffle is a permutation |
| Bags.ShuffleFromIdentity | src/Bag.jsx:86-95 | choosing the current index every time leaves the sequence as it was |
| Bags.Shuffle | src/Bag.jsx:82-98 | length and multiset are kept |
| Bags.ShuffleInPlace | src/Bag.jsx:82-98 | the in-place swap loop computes the shuffle and permutes its input |
| Bags.Batch | src/Bag.jsx:58-63 | one fresh well-formed shape per catalogue scheme, at the origin, in catalogue order, with consecutive identities |
| Bags.BatchMasks | src/Bag.jsx:57-71 | a shuffled batch holds each catalogue scheme exactly once |
| Bags.BatchDistinct | src/Bag.jsx:57-71 | a shuffled batch has pairwise distinct identities |
| Bags.Replenish | src/Bag.jsx:57-71 | appends seven shapes, one per catalogue scheme, with new identities, and leaves the existing queue in place |
| Bags.New | src/Bag.jsx:15-19 | min is 3 when not given (or 0) and the given value otherwise; the queue holds one batch of the seven schemes |
| Bags.Grab | src/Bag.jsx:25-31 | returns the last shape (none from an empty queue); the rest stays in place, and a batch is appended exactly when fewer than min remain, so at least min are left when min is at most 7 |
| Bags.GrabKeepsValid | src/Bag.jsx:25-31 | grabbing keeps the queue's shapes well-formed, from the catalogue and with distinct identities |
| Bags.GrabFromValid | src/Bag.jsx:25-31 | from a valid non-empty bag, the grabbed shape is a well-formed catalogue shape that is no longer in the queue |
| Bags.GrabKeepsRest | src/Bag.jsx:26-28 | every shape below the popped one keeps its place |
| Bags.GrabRefilled | src/Bag.jsx:28 | every shape past the kept ones is new |
| Bags.Front | src/Bag.jsx:49-51 | as written, the loop gathers the first n queue entries counted from the front, with `undefined` (None) past the end |
| Bags.Peek | src/Bag.jsx:44-52 | corrected: returns the next min(min, amount) entries counted from the back of the queue, where `grab` takes from (none for a non-positive count), and does not change the bag |
| Bags.PeekIsNextGrab | src/Bag.jsx:39-42 | the first shape the corrected peek shows is the one the next grab returns |
| Bags.NextAfterGrab | src/Bag.jsx:39-42 | after a grab that needs no refill, the corrected peek shows what it showed before less the grabbed shape, so the grabs follow the peeked order until a refill |
| Bags.GrabWithoutRefill | src/Bag.jsx:25-31 | a grab that leaves at least min shapes takes the last one off and appends nothing |
| Bags.PeekAsWrittenMisorders | src/Bag.jsx:49-51 | as written, with different shapes at the two ends, the first shape gathered is the front one while the next grab returns the back one; the corrected order agrees with the grab |
| Bags.PeekAsWritten | src/Bag.jsx:44-52 | as written: the function returns nothing |
| Bags.PeekAsWrittenLosesShapes | src/Bag.jsx:44-52 | whenever there is a shape to show, the as-written peek returns nothing while the corrected one shows the shape the next grab returns |
| Bags.FromSchemeAsWritten | src/Shape.jsx:26-47 | building from a missing scheme fails (reading its length throws); from a present one it gives that occupancy |
| Bags.ReplenishAsWritten | src/Bag.jsx:57-71 | as written: succeeds only as the corrected replenish |
| Bags.ReplenishAsWrittenThrows | src/Bag.jsx:61 | the as-written replenish always throws, because the catalogue entries have no scheme field; the corrected one appends seven shapes |
| Boards.Init | src/Board.jsx:17-36 | h rows of w fresh cells, each at its own position, an empty queue and no shapes |
| Boards.QueueCellAt | src/Board.jsx:118-121 | each queue row reads as a negative board row: queue row qy is board row qy - queue height |
| Boards.NotWritableAbsent | src/Board.jsx:118-121 | a position no write can reach reads as null |
| Boards.Put | src/Board.jsx:151-160 | a write routed to the queue for a negative row reads back at that position; all other positions read as before |
| Boards.SchemeWrites | src/Board.jsx:147-163 | one fresh cell per switched-on scheme slot, in row-major order, at the scheme origin plus the slot |
| Boards.DeleteScheme | src/Board.jsx:147-163 | every reachable position under the scheme becomes a fresh cell; every other position reads as before |
| Boards.DeleteSchemeSpec | src/Board.jsx:147-163 | performing the scheme's writes in order has exactly that effect |
| Boards.CellWrites | src/Board.jsx:169-188 | one write per present shape cell, aimed at the shape origin plus the slot |
| Boards.AddShapeCells | src/Board.jsx:169-188 | every reachable position under the shape reads the shape's cell; every other position reads as before |
| Boards.AddShapeCellsSpec | src/Board.jsx:169-188 | performing the shape's writes in order has exactly that effect |
| Boards.ShapeMoved | src/Board.jsx:198-205 | the new footprint holds the shape's cells, the rest of the old footprint holds fresh cells, and no other position changes |
| Boards.ShapeMovedSpec | src/Board.jsx:198-205 | deleting the old footprint and then adding the shape's cells has exactly that effect |
| Boards.AddShape | src/Board.jsx:133-139 | the queue holds exactly the shape's cells; the board grid is untouched; the shape is registered |
| Boards.MarkResolved | src/Shape.jsx:62-66 | every board cell the shape owns becomes resolved; occupancy, the other fields and all other cells are kept |
| Boards.Settle | src/Board.jsx:243 | the shape and its board cells are resolved, and it stays where it is |
| Boards.AnyBlocks | src/Board.jsx:246-255 | true exactly when some listed cell's destination is a non-empty cell of another shape |
| Boards.CollidesSpec | src/Board.jsx:246-255 | a move collides exactly when some present cell of the shape is blocked; null destinations and the shape's own cells never block |
| Boards.Move | src/Board.jsx:213-260 | out of the side bounds nothing changes; past the floor, or blocked, the shape is resolved in place; otherwise its origin moves by exactly (dx, dy) and it is resolved. Other shapes are untouched |
| Boards.Carry | src/Board.jsx:257-259 | a successful move translates the shape, keeps its occupancy and identity, resolves it, and redraws the old and new footprint |
| Boards.MoveFootprint | src/Board.jsx:198-205 | after a successful move each position reads the moved cell, a fresh cell on the vacated footprint, or what it held before |
| Boards.MoveKeepsRegistered | src/Board.jsx:213-260 | a move keeps every registered shape well-formed and filed under its own identity |
| Boards.MoveKeepsOthersResolved | src/Board.jsx:213-260 | moving one shape leaves another shape's resolved cells resolved |
| Boards.ActiveIffMovesDown | src/Board.jsx:269-286 | for a shape within the side bounds, it is active exactly when a move down translates it |
| Boards.FirstActive | src/Board.jsx:292-307 | the result is an active shape, and there is none exactly when no listed cell is a candidate |
| Boards.FirstActiveIsFirst | src/Board.jsx:292-307 | the result belongs to the first candidate cell in iteration order |
| Boards.ActiveShape | src/Board.jsx:292-307 | a result is a registered active shape, and there is none exactly when neither the queue nor the board holds a present cell of an active shape |
| Boards.NoCandidateIterate | src/Board.jsx:293-306 | no present cell is a candidate exactly when no iterated cell is one |
| Boards.MoveLeft | src/Board.jsx:313-316 | with no active shape nothing changes; otherwise the active shape keeps its row and moves one column left exactly when its box stays within the columns and no other shape's cell blocks it; no other shape changes |
| Boards.MoveRight | src/Board.jsx:322-325 | with no active shape nothing changes; otherwise the active shape keeps its row and moves one column right exactly when its box stays within the columns and no other shape's cell blocks it; no other shape changes |
| Gravity.Unresolve | src/Board.jsx:96-99 | in both grids each present cell becomes resolved exactly when empty; nothing else about any cell or shape changes |
| Gravity.UnresolveIdempotent | src/Board.jsx:96-99 | unresolving twice is unresolving once |
| Gravity.QueuePass | src/Board.jsx:68-76 | the queue phase keeps the dimensions and shapes; a true flag survives only if no shape was moved, and then the board is unchanged |
| Gravity.QueuePassMovesOnce | src/Board.jsx:68-76 | when one shape is the only one with a queue cell left to visit, the queue phase moves it down once, whether or not the move is carried out, and clears the flag |
| Gravity.QueueMovedLeavesSkipped | src/Board.jsx:68-76 | once that shape has moved, every queue position it or a skipped cell held is skipped |
| Gravity.QueuePassFlag | src/Board.jsx:68-76 | the flag survives exactly when it came in true and every visited queue cell is skipped (missing, resolved, empty or of an unknown shape); skipping every cell changes nothing |
| Gravity.CellsPass | src/Board.jsx:79-87 | the board phase keeps dimensions and shapes; a true flag survives only if every shape stayed where it was |
| Gravity.CellsPassFlag | src/Board.jsx:79-87 | the flag survives exactly when it came in true and every visited board cell is skipped or belongs to a shape that cannot fall; skipping every cell changes nothing |
| Gravity.SettleKeepsActive | src/Board.jsx:243 | resolving a shape in place changes no shape's ability to fall |
| Gravity.ActiveIgnoresResolved | src/Board.jsx:269-286 | whether a shape can fall depends on where cells are and whose they are, not on which are resolved |
| Gravity.CellsPassFalls | src/Board.jsx:79-87 | when one active shape within the columns is the only shape with a cell left to visit, the board phase moves it down exactly one row, in its column, and clears the flag |
| Gravity.MovedLeavesSkipped | src/Board.jsx:79-87 | once that shape has moved, every remaining position is skipped: its own cells are resolved and other shapes' cells are unchanged |
| Gravity.Resolve | src/Board.jsx:64-90 | a true result means every shape is where it was |
| Gravity.ResolveFlag | src/Board.jsx:64-90 | a pass returns true exactly when every queue cell is skipped and every board cell is skipped or belongs to a shape that cannot fall |
| Gravity.ResolveMovesLoneShape | src/Board.jsx:64-90 | with nothing to move in the queue and one active shape within the columns as the only shape left to visit, a pass moves that shape down exactly one row, in its column, and returns false |
| Gravity.ResolveMovesQueuedShape | src/Board.jsx:64-90 | when one active shape within the columns is the only shape left to visit and has a queue cell to visit, a pass moves it down exactly one row, in its column, and returns false |
| Gravity.SettledIsFixpoint | src/Board.jsx:64-90 | on a board whose present cells are all resolved or empty, a pass changes nothing and returns true |
| Gravity.ResolveFallsAtMostOneRow | src/Board.jsx:64-90 | one pass keeps the shapes registered and moves each shape down by zero or one rows, never sideways |
| Gravity.ClearFullRow | src/Board.jsx:103 | a full last row is dropped, the other rows move down one and a fresh row comes in on top; otherwise nothing changes |
| Gravity.Step | src/Board.jsx:101-108 | a step keeps the board's dimensions and its set of shapes |
| Gravity.EmptyBoardStep | src/Board.jsx:101-108 | on a board with no hole and no occupied cell, a step only unresolves |
| Gravity.StepFallsAtMostOneRow | src/Board.jsx:101-108 | a step moves each registered shape down by zero or one rows, never sideways |
| Gravity.StepMovesLoneShape | src/Board.jsx:101-108 | with no full bottom row, no registered shape's cell in the queue and one active shape within the columns as the only registered shape on the board, a step moves it down exactly one row, in its column |
| Gravity.StepMovesQueuedShape | src/Board.jsx:101-108 | with no full bottom row and one active shape within the columns as the only registered shape in the queue or on the board, holding a queue cell (as a newly added shape does), a step moves it down exactly one row, in its column |
| Gravity.UnresolveKeepsActive | src/Board.jsx:96-99 | unresolving changes no shape's ability to fall |

## Left out

- `src/script.js`, `src/Interface.jsx`, `src/Emitter.jsx`, `src/index.jsx` and the build files are not part of this model. They hold an older prototype, DOM rendering, timing and event dispatch.
- The event wiring between `Shape` and `Board` is replaced by a direct call from `Boards.Move` to `ShapeMoved`. The old footprint is found with the moved shape's occupancy pattern at the snapshot's origin.
- `Board.moveBottom` is left out. It loops while some shape is active, and nothing in the code bounds that loop.
- `Board.nextColor` and `handleAdd` are left out. They index colour tables that `src/constants.jsx` does not export, and they call the `Shape` constructor with the wrong arguments.
- `console.log` in `deleteScheme` is left out. It only prints.
- `_.clone` in `addRow` is a plain copy, since rows are values.
- `Math.random` in `_shuffle` is replaced by a caller-supplied index sequence whose t-th entry is below n - t.
- Grids.Set: a write at a negative column or row is not stored. The source keeps it as an array property outside the index range (`cells[y][-1]`, or a row stored as `cells[-1]`). `get` at that same position reads it back, while the iterator, `height` and `width` never see it. The model reads no cell there.
- Grids.Collect: the iterator's early exit for a grid with no rows is not a separate branch. The cursor loop gives the same result.
- Grids.Collect: a row that exists but is empty (`[]`, as `set` at a negative column creates it) at index 1 or more makes the source's iterator loop forever, because `cx + 1` never equals the row length 0; `isEmpty` and `isFull` iterate too. The model cannot tell such a row from a missing one and passes over both.
- Grids.Width, Grids.IsEmpty, Grids.IsFull: when row 0 is missing (after `set(x, 1, c)` on an empty grid, say), the source's `width` reads the length of `undefined` and throws, and so do `isEmpty` and `isFull`, which read `width` first. The model gives width 0.
- Shapes.FromCell: an empty cell (`cell.shape` is null) makes the source's `cell.shape.clone()` throw a TypeError. The model returns `None` instead, and does the same for an owner missing from the shape map, which the source cannot have since it follows the object reference.
- Grids.FreshRow: the cells `shift` creates sit at (k, 0). The source creates them with undefined coordinates.
- Gravity.QueuePass, Gravity.CellsPass, Boards.ActiveShape: a cell whose owner is not in the board's shape map is skipped (`Gravity.Skipped`, `Boards.Candidate`). The source follows the object reference, which always exists. The model does not prove that such cells never arise.
- Gravity.CellsPass, Gravity.QueuePass: when several shapes have cells left to visit, which of them fall is stated only through the flags (`Gravity.CellsPassFlag`, `Gravity.QueuePassFlag`) and the one-row bound. The exact fall is proved for a single shape, in the board phase (`Gravity.CellsPassFalls`, `Gravity.ResolveMovesLoneShape`, `Gravity.StepMovesLoneShape`) and in the queue phase (`Gravity.QueuePassMovesOnce`, `Gravity.ResolveMovesQueuedShape`, `Gravity.StepMovesQueuedShape`). A shape whose box lies outside the columns is refused by `move` and does not fall.
- Bags.Peek: its order matches the grabs only until a refill. A refill pushes the new batch onto the back, the end `grab` takes from, so the grabs after it return new shapes before the remaining ones. `Bags.NextAfterGrab` states the order up to that point.
- Gravity.Resolve: the passes visit the positions present when each phase starts. The source iterates the live grid while moves change it.
- Gravity.Step: its own ensures states only dimensions and shapes. What a step does to positions is stated by `Gravity.StepFallsAtMostOneRow`, `Gravity.StepMovesLoneShape`, `Gravity.StepMovesQueuedShape` and `Gravity.EmptyBoardStep`.
- Colours carry no hex values. Both colour sources the engine reads are `undefined`, so every colour is `Undefined`.
- `Cell.isEmpty`, `CellGrid.height`/`width` and `Shape.height`/`width` are plain definitions (`Cell.IsEmpty`, `Grids.Height`, `Grids.Width`, `Shape.Height`, `Shape.Width`) without contracts of their own. Their meaning is used by the contracts above.

## Findings

| source | as written | input that shows it | evidently intended | confidence | as-written member | corrected member |
|---|---|---|---|---|---|---|
| src/CellGrid.jsx:65 | `this.cells.shift(nl)` removes the first row and ignores `nl`, so after the `pop` the grid has lost two rows | any grid of two rows: it ends with none | prepend the fresh row (`unshift`), keeping the height as the doc comment says | high, not executed | Grids.ShiftAsWrittenLosesRows | Grids.Shift |
| src/Bag.jsx:44-52 | `peek` fills an array and never returns it | a bag with one shape, `min` 3, `peek(1)`: the caller gets `undefined` | return the gathered array | high, not executed | Bags.PeekAsWrittenLosesShapes | Bags.Peek |
| src/Bag.jsx:49-51 | `peek` gathers `queue[0]`, `queue[1]`, … from the front, but `grab` pops from the back (`:26`) and `replenish` pushes onto the back (`:69`), so the shapes are not in the order in which they will be grabbed, as the doc comment (`:39-42`) promises | a queue [A, B] with A ≠ B and `min` 1: `peek(1)` gathers A, `grab()` returns B | gather from the back of the queue, the end `grab` takes from | high, not executed | Bags.PeekAsWrittenMisorders | Bags.Peek |
| src/Bag.jsx:61 | `replenish` reads `SHAPES[z].scheme`, but each entry of `SHAPES` is a bare array, so `fromScheme` reads `undefined.length` and throws | any bag: the constructor itself calls `replenish` | pass `SHAPES[z]` as the scheme | high, not executed | Bags.ReplenishAsWrittenThrows | Bags.Replenish |
