# Tetromino shape model

A Dafny model of the `Shape` type of a falling-block puzzle game. A shape is one
tetromino. It has a variant tag (one of seven), the set of grid cells it occupies
in absolute coordinates, and an anchor cell that the rotation formula is computed
from. x grows to the right and y grows downward.

The operations are:

- the seven spawn constructors, and the index-to-variant choice of the random spawn;
- translation by a displacement;
- the membership and collision tests;
- the fixed quarter-turn formula `(x, y) -> (-y + b + 1, x - a + b)` for the anchor `(a, b)`;
- the in-place row clear.

Files:

- `cells.dfy` (module `Cells`) holds the grid cell `Pos` and its addition. It also
  holds the three cell-set maps the shape operations use: `Shift`, `RotateCells` and
  `ClearRow`. Each is the image of the cell set under a cell map (`Image`). The
  lemmas say exactly which cells are in each result and how many there are.
- `shape.dfy` (module `Shapes`) holds the variant datatype, the table of the seven
  spawn layouts (`Tetromino`) and the class `Shape`. The tag and the anchor are
  `const` fields, because no operation changes them after construction. `positions`
  is a `var` field. `Plus` and `Rotated` allocate a new shape. `RemoveLine` reassigns
  `positions` in place.
- `scenarios.dfy` (module `ShapeScenarios`) holds concrete consequences for the
  game's own pieces. Two client methods drive a shape object through spawn,
  translation, collision tests, four rotations and a row clear.

The rotation formula is not a quarter-turn about the anchor. `RotateIsTurnThenShift`
shows it is the quarter-turn about the anchor followed by a horizontal shift of
`1 - a`. So the anchor is a fixed point only when its x is 1 (`RotateFixesAnchor`).
Rotating a translated shape keeps only the vertical part of the translation
(`RotateCellsAfterShift`). Four rotations still return every cell set, for every
anchor (`RotateCellsOrderFour`).

Two consequences of the code that a reader of the shape type might not expect:

- `remove_line` can empty a shape (`IRowClearEmpties`). It can also leave a
  non-empty shape with its anchor outside its cells
  (`TRowClearLeavesAnchorOutside`).
- The comment at src/shape.rs:93 calls the formula a rotation about the anchor.
  It is one only when the anchor's x is 1 (`RotateIsTurnThenShift`).

## Model

| member | source | states |
|---|---|---|
| `Cells.Pos.Plus` | src/shape.rs:8-10 | cell addition: the x and y coordinates are added separately |
| `Cells.Pos.Minus` | src/shape.rs:8-10 | subtracting `d` gives the one and only cell that adding `d` sends here, so addition by `d` is invertible |
| `Cells.PlusAssociative` | src/shape.rs:8-10 | cell addition is associative, so moving by `d1` then `d2` moves the anchor by `d1 + d2` |
| `Cells.PlusOrigin` | src/shape.rs:8-10 | adding `Pos(0, 0)` leaves a cell unchanged |
| `Cells.Image` | src/shape.rs:18 | the `map(..).collect()` step: the set of all `f(p)` for the cells `p` of the set |
| `Cells.ImageCardinality` | src/shape.rs:18 | mapping a cell set through a map that merges no two of its cells and collecting keeps the cell count |
| `Cells.Shift` | src/shape.rs:18 | the cells of a translated shape: every cell with `d` added |
| `Cells.ShiftMembership` | src/shape.rs:18 | a cell is in the translated set iff the cell `d` behind it was in the original (both directions) |
| `Cells.ShiftCardinality` | src/shape.rs:18 | translation keeps the cell count |
| `Cells.ShiftCompose` | src/shape.rs:13-22 | translating by `d1` then `d2` gives the same cells as translating once by `d1 + d2` |
| `Cells.ShiftOrigin` | src/shape.rs:13-22 | translating by `Pos(0, 0)` gives back the same cells |
| `Cells.Rotate` | src/shape.rs:87-94 | the formula `(x, y) -> (-y + b + 1, x - a + b)` for the anchor `(a, b)` |
| `Cells.Unrotate` | src/shape.rs:94 | the rotation formula has an inverse: the result is the unique cell that the formula sends to `q` |
| `Cells.RotateOrderFour` | src/shape.rs:94 | applying the formula four times with the same anchor gives back the cell, for every anchor |
| `Cells.TurnAbout` | src/shape.rs:93-94 | the reference rotation that the comment at line 93 names: `(x, y) -> (a - (y - b), b + (x - a))` for the anchor `(a, b)` |
| `Cells.TurnAboutIsQuarterTurn` | src/shape.rs:93-94 | the reference rotation keeps the anchor, has order four, and moves every other cell after two applications |
| `Cells.RotateIsTurnThenShift` | src/shape.rs:87-94 | the formula equals the quarter-turn about the anchor `(a, b)` followed by a shift of `(1 - a, 0)`, and it equals the turn iff `a == 1` |
| `Cells.RotateFixesAnchor` | src/shape.rs:87-94 | the anchor is sent to itself iff its x is 1 |
| `Cells.RotateCells` | src/shape.rs:91-95 | the cells of a rotated shape: every cell mapped by the formula with the shape's anchor |
| `Cells.RotateCellsMembership` | src/shape.rs:91-95 | a cell is in the rotated set iff its inverse image under the formula was in the original (both directions) |
| `Cells.RotateCellsCardinality` | src/shape.rs:91-95 | rotation keeps the cell count |
| `Cells.RotateCellsOrderFour` | src/shape.rs:86-97 | rotating a cell set four times with the same anchor gives back the same set |
| `Cells.RotateCellsAfterShift` | src/shape.rs:86-97 | rotating a translated set about the translated anchor gives the rotated original moved by `(0, d.y)` only |
| `Cells.Settle` | src/shape.rs:103-109 | where a surviving cell goes: a cell on or below the cleared row (y >= row) stays, a cell above it moves to y + 1 with the same x |
| `Cells.ClearRow` | src/shape.rs:100-110 | the cells after clearing a row: the cells not on the row, each moved by `Settle` |
| `Cells.ClearRowMembership` | src/shape.rs:100-110 | after clearing row `y`, a cell below the row is present iff it was before, and a cell on or above the row is present iff the cell one row up was; so the row's old cells are gone, higher cells drop by one with the same x, lower cells stay |
| `Cells.SettleInjective` | src/shape.rs:102-109 | no two surviving cells land on the same cell: dropped cells end on rows at most `y`, kept cells stay below `y` |
| `Cells.ClearRowCardinality` | src/shape.rs:100-110 | the cell count after clearing row `y` is the old count minus the number of cells on row `y` |
| `Shapes.Tetromino` | src/shape.rs:46-54 | each spawn layout has exactly 4 distinct cells, contains the origin, and its anchor is one of its cells |
| `Shapes.TetrominoInjective` | src/shape.rs:47-53 | two different variants never have the same spawn cells |
| `Shapes.VariantAt` | src/shape.rs:58-65 | the match of the random spawn: index 0..6 selects I, O, T, J, L, S, Z in that order |
| `Shapes.IndexOf` | src/shape.rs:58-65 | the random spawn's index map sends `0..6` to I, O, T, J, L, S, Z, and every variant is drawn by exactly one index |
| `Shapes.Shape.constructor` | src/shape.rs:24-29 | a shape holds exactly the given tag, cells and anchor |
| `Shapes.Shape.NewI` | src/shape.rs:47 | the I shape: tag I, cells (0,0) (1,0) (2,0) (3,0), anchor (1,0) |
| `Shapes.Shape.NewO` | src/shape.rs:48 | the O shape: tag O, cells (0,0) (1,0) (0,1) (1,1), anchor (0,0) |
| `Shapes.Shape.NewT` | src/shape.rs:49 | the T shape: tag T, cells (0,0) (1,0) (2,0) (1,1), anchor (1,0) |
| `Shapes.Shape.NewJ` | src/shape.rs:50 | the J shape: tag J, cells (0,0) (0,1) (0,2) (-1,2), anchor (0,1) |
| `Shapes.Shape.NewL` | src/shape.rs:51 | the L shape: tag L, cells (0,0) (0,1) (0,2) (1,2), anchor (0,1) |
| `Shapes.Shape.NewS` | src/shape.rs:52 | the S shape: tag S, cells (0,0) (1,0) (0,1) (-1,1), anchor (0,0) |
| `Shapes.Shape.NewZ` | src/shape.rs:53 | the Z shape: tag Z, cells (0,0) (-1,0) (0,1) (1,1), anchor (0,0) |
| `Shapes.Shape.NewRandom` | src/shape.rs:56-68 | for an index below 7, a fresh shape of the variant that index selects, in its spawn layout |
| `Shapes.Shape.Plus` | src/shape.rs:13-22 | a fresh shape with the same tag, every cell shifted by `d`, the anchor shifted by `d`, and the same cell count |
| `Shapes.Shape.HasPosition` | src/shape.rs:78-80 | membership: the shape occupies `p` iff `p` is one of its cells |
| `Shapes.HasPositionAfterPlus` | src/shape.rs:78-80 | a translated shape has cell `q` iff the original has `q - d` |
| `Shapes.HasPositionAfterRotated` | src/shape.rs:78-80 | a rotated shape has cell `q` iff the original has the inverse image of `q` under the formula |
| `Shapes.HasPositionAfterRemoveLine` | src/shape.rs:78-80 | after a row clear, a shape has a cell below the row iff it had it before, and a cell on or above the row iff it had the cell one row up |
| `Shapes.Shape.CollidesWith` | src/shape.rs:82-84 | a non-empty intersection means some cell is in both shapes, and the converse holds too |
| `Shapes.Shape.Rotated` | src/shape.rs:86-97 | a fresh shape with the same tag and anchor, every cell mapped by the formula, and the same cell count |
| `Shapes.Shape.RemoveLine` | src/shape.rs:99-111 | the cells become the row-cleared cells, their count drops by the number on the row, and the tag and anchor are constant |
| `Shapes.CollidesWithSymmetric` | src/shape.rs:82-84 | collision does not depend on the order of the two shapes |
| `Shapes.CollidesWithSelf` | src/shape.rs:82-84 | a shape with at least one cell collides with itself |
| `ShapeScenarios.IRotatedOnce` | src/shape.rs:86-97 | one rotation of the spawned I gives the cells (1,-1) (1,0) (1,1) (1,2) |
| `ShapeScenarios.ORotationFixed` | src/shape.rs:86-97 | one rotation of the spawned O gives back exactly its cells |
| `ShapeScenarios.TRowClear` | src/shape.rs:99-111 | clearing row 1 under the spawned T leaves exactly (0,1) (1,1) (2,1) |
| `ShapeScenarios.IRowClearEmpties` | src/shape.rs:99-111 | clearing row 0 under the spawned I leaves no cells, so the shape becomes empty |
| `ShapeScenarios.TRowClearLeavesAnchorOutside` | src/shape.rs:99-111 | clearing row 0 under the spawned T leaves only (1,1), and the unchanged anchor (1,0) is not among the remaining cells |
| `ShapeScenarios.ITranslatedApart` | src/shape.rs:13-22 | the spawned I and its copy moved by (10, 0) share no cell |

## Left out

- The random draw in `new_random` (src/shape.rs:57) is left out. It calls a foreign random
  number generator and does floating-point arithmetic. The model takes the drawn index as a
  parameter below 7. That makes the `unreachable!()` arm dead, so it is not modelled.
- The `impl_shape_constructor!` macro is left out. The seven constructors it expands to are
  modelled directly, with their literals kept in the table `Tetromino`.
- The emoji tags are left out. They are opaque identifiers, so the model uses a seven-value datatype.
- The accessors `typ()` and `iter_positions()` are the public fields `typ` and `positions`.
  Iteration order and iterator laziness are left out: the cells are a `set`.
- Integer width is left out. `Pos` coordinates are unbounded integers, so `i32` overflow
  in cell addition and in the rotation formula (a panic or a wrap, depending on the build)
  is not modelled.
- The derived `Debug`, `Clone` and `Hash` implementations are left out. They have no behaviour to verify.
- Ownership is left out. The source returns owned values from translation and rotation. The
  model returns fresh objects, so it does not model borrowing.
