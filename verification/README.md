# Falling-block engine: Board and Piece

A Dafny model of the game engine of a small SDL falling-block game: the
`Piece` class (src/piece.cpp) and the `Board` class (src/board.cpp). It covers
the following parts of the engine:

- the 20 x 10 grid and its cells;
- the tetromino table, the colour table and the quarter turn;
- the collision test `isPieceFit`;
- spawning, the moves, the hard drop, the rotation with revert, and locking;
- line clearing and scoring;
- the three grid metrics and the exhaustive placement search `bestMove`.

The board is an immutable record (`Engine.Board`), and every `Board` method
is a pure function from one board to the next. Calls to `rand()` become
explicit `(Kind, ColorName)` arguments. The operations that may lock a piece
take the next piece's kind and colour as arguments: `MoveDown`, `Drop` and
`Lock`. `getScore` and `isGameOver` are the `score` and `gameOver` fields.
The loops that carry the weight of the source are written as methods and
proved equal to independent reference definitions:

- `clearLines` (`LineClear.ClearLinesScan`);
- the height and hole counts (`Metrics.ScanHeight`, `Metrics.CountHoles`,
  `Metrics.AggregateHeight` and `Metrics.Bumpiness`);
- `bestMove` (`Search.BestMove` and its helpers; `Search.BestPlacement` runs it with `Metrics.EvaluateBoard`).

Modules, each in its own file:

| file | module | models |
|---|---|---|
| tetromino.dfy | Tetromino | `Piece`: shape table, colour table, `setType`, `setColor`, `rotate` |
| playfield.dfy | Playfield | the grid of `Cell`s and the cell writes of lock and search |
| line_clear.dfy | LineClear | `clearLines` |
| engine.dfy | Engine | `isPieceFit`, spawn, moves, rotation, lock, drop, scoring, the board invariant |
| metrics.dfy | Metrics | `countHoles`, `aggregateHeight`, `bumpiness`, `evaluateBoard` |
| search.dfy | Search | `bestMove` |

The board invariant `Engine.Inv` collects what the board keeps true between
calls:

- while the game runs, the current piece fits where it stands;
- its offsets are four distinct cells within [-2, 2];
- no row of the grid is full.

The fit invariant is what keeps the unchecked grid writes of `lockPiece` in
bounds. `Engine.Imprint` states this: every written cell is inside the grid
and was empty before.

Two facts about the code that the model proves rather than assumes:

- The `switch` at src/board.cpp:154-169 scores 0 for any count of cleared
  lines other than 1 to 4, and `Engine.Points` does the same.
  `Engine.LockClearsAtMostFour` proves that a lock never clears five or
  more lines, so the `default` branch only ever scores a lock that clears
  no line.
- The scan at src/board.cpp:129-151 does not test row y again after a
  collapse has moved the row above onto it. It still leaves no full row,
  because the rows that move down were already visited and found not full.
  `LineClear.ClearLinesScan` proves this for the code's single pass.

## Model

| member | source | states |
|---|---|---|
| Tetromino.ShapeOf | src/piece.cpp:69-93 | each kind's four offsets, in table order; they are pairwise distinct, with x in [-1, 1] and y in [-1, 2] |
| Tetromino.ColorOf | src/piece.cpp:14-47 | each colour name's RGB triple; every channel is 0 or 255 and no colour is black or white |
| Tetromino.ColorOfInjective | src/piece.cpp:14-47 | two colour names share a triple only if they are the same name |
| Tetromino.SetType | src/piece.cpp:9-12 | `setType` sets the kind and replaces all four offsets with the table entry, whatever the orientation was; colour and position stay |
| Tetromino.SetColor | src/piece.cpp:14-47 | `setColor` changes the colour only; kind, offsets and position stay |
| Tetromino.SetTypeSetColorCommute | src/piece.cpp:9-47 | setting kind and colour commute, and a quarter turn made before `setType` leaves no trace |
| Tetromino.Rotate | src/piece.cpp:49-55 | `rotate` maps every offset (dx, dy) to (-dy, dx) and leaves kind, colour and position unchanged |
| Tetromino.RotateFourTimes | src/piece.cpp:49-55 | four quarter turns give back the original piece |
| Tetromino.RotatePeriod | src/piece.cpp:49-55 | n + 4 turns equal n turns, for every n |
| Tetromino.RotatePreservesShape | src/piece.cpp:49-55 | a turn keeps the offsets pairwise distinct and keeps every coordinate in [-2, 2] |
| Tetromino.TurnedShapes | src/piece.cpp:49-93 | every table shape, turned any number of times, has four distinct offsets within [-2, 2] |
| Playfield.PaintCells | src/board.cpp:113-121 | after writing a list of cells, skipping rows above the grid, a cell holds the written value exactly when it is listed, and is unchanged otherwise |
| Playfield.FillFlagsAgree | src/board.cpp:258-264 | the search's marking sets the same filled flags as locking does, whatever colour locking stores |
| Playfield.MarkThenUnmarkRestores | src/board.cpp:258-275 | marking empty cells filled and then empty gives back the original grid, colours included |
| LineClear.ClearLines | src/board.cpp:127-151 | the reference clear: non-full rows settle at the bottom in order, with empty rows on top; no full row remains |
| LineClear.ClearWithoutFullRows | src/board.cpp:127-151 | a clear changes nothing and counts 0 lines exactly when the grid has no full row |
| LineClear.DroppedAreFull | src/board.cpp:127-151 | the number of rows a clear removes equals the number of full rows |
| LineClear.RowIsFull | src/board.cpp:130-136 | the row test answers true exactly when every cell of the row is filled |
| LineClear.CollapseRow | src/board.cpp:139-149 | after the collapse, row 0 is empty, the rows above `y` sit one lower, and the rows below `y` are untouched |
| LineClear.ClearLinesScan | src/board.cpp:127-151 | the single top-to-bottom scan gives the reference grid and line count, and leaves no full row |
| Engine.FitFrom | src/board.cpp:99-108 | the fit loop from block `i` on returns true exactly when each remaining block's cell is free |
| Engine.IsPieceFit | src/board.cpp:98-110 | a piece fits exactly when every cell has column 0..9 and row below 20, and is above the grid or on an empty cell |
| Engine.AboveGridNeverCollides | src/board.cpp:102-107 | a piece entirely above row 0 fits exactly when its columns are in range, whatever the grid |
| Engine.FitsWritable | src/board.cpp:112-122 | a fitting piece's cells with row >= 0 are inside the grid and empty |
| Engine.Spawn | src/board.cpp:40-53 | the drawn kind and colour at column 5; at row 0 if the piece fits there, otherwise at row -2 with the game over; grid and score unchanged; afterwards the live piece fits |
| Engine.Points | src/board.cpp:153-169 | a clear scores a positive amount exactly for 1 to 4 lines, at most 800, and clearing lines together scores more than clearing them apart |
| Engine.Imprint | src/board.cpp:112-122 | the lock writes the piece colour and sets filled on exactly the piece's cells with row >= 0; each of them is inside the grid and was empty; no other cell changes |
| Engine.Lock | src/board.cpp:112-125 | the grid becomes the cleared imprint, the score grows by the points of the cleared lines, no row is full, and the game is over exactly when the next piece does not fit at the top; the new current piece is the drawn kind and colour with its table offsets at column 5, at row 0 or, once the game is over, at row -2 |
| Engine.LockClearsAtMostFour | src/board.cpp:153-169 | on a grid with no full row, a lock clears at most four lines |
| Engine.MoveLeft | src/board.cpp:55-61 | once the game is over, or if the piece does not fit one column left, nothing changes; otherwise the piece moves exactly one column left |
| Engine.MoveRight | src/board.cpp:63-69 | as for the left move, one column right |
| Engine.SideStepsUndo | src/board.cpp:55-69 | a left move that happened is undone by a right move, and the other way round |
| Engine.RotatePiece | src/board.cpp:88-96 | once the game is over, or if the turned piece does not fit, the board is unchanged (three more turns restore the offsets); otherwise only the offsets turn |
| Engine.MoveDown | src/board.cpp:71-78 | once the game is over nothing changes; if the row below fits the piece moves down one row; otherwise it locks where it stands |
| Engine.LandingRow | src/board.cpp:82-84 | the fall stops at the first row r >= y where the next row does not fit, and the piece fits at every row from y to r |
| Engine.Drop | src/board.cpp:80-86 | once the game is over nothing changes; otherwise the piece locks at its landing row |
| Engine.DropAfterSoftDrop | src/board.cpp:71-86 | while the row below fits, a hard drop after a soft drop is the same as the hard drop alone |
| Engine.DropOnFloor | src/board.cpp:71-86 | once the row below is blocked, a hard drop is a single soft drop |
| Engine.NewBoard | src/board.cpp:6-16 | the constructor's board: the empty grid with black cells, score 0, game running, and the drawn kind and colour with its table offsets at column 5 of row 0; the invariant holds |
| Engine.StepKeepsInvariant | src/board.cpp:40-125 | every command keeps the board invariant and never lowers the score; once the game is over no command changes anything |
| Engine.Run | src/board.cpp:40-125 | any sequence of commands keeps the invariant and never lowers the score, and a finished game stays as it is |
| Metrics.TopFromMeaning | src/board.cpp:207-212 | the column walk passes only empty cells and stops at a filled cell or at the floor |
| Metrics.ColumnHeightMeaning | src/board.cpp:204-215 | a column's height is 0 exactly when it is empty; otherwise its topmost filled cell is at row 20 - h with only empty cells above |
| Metrics.ColumnAccounting | src/board.cpp:189-215 | in a column, holes plus filled cells equal the column height |
| Metrics.GridAccounting | src/board.cpp:189-215 | over the grid, holes plus filled cells equal the aggregate height |
| Metrics.HeightBound | src/board.cpp:204-215 | the aggregate height is at most 20 per column |
| Metrics.FlatIffNoBumps | src/board.cpp:217-236 | the bumpiness is 0 exactly when all columns have the same height |
| Metrics.EmptyMeasures | src/board.cpp:189-236 | a grid with no filled cell has no holes, no height and no bumpiness |
| Metrics.EmptyGridMeasures | src/board.cpp:6-16 | the constructor's grid has no holes, no height and no bumpiness |
| Metrics.ScanHeight | src/board.cpp:207-212 | the scan of one column returns 20 minus the row of its topmost filled cell, or 0 for an empty column |
| Metrics.CountHoles | src/board.cpp:189-202 | `countHoles` returns the number of empty cells that have a filled cell above them in their column |
| Metrics.AggregateHeight | src/board.cpp:204-215 | `aggregateHeight` returns the sum of the column heights, and that sum is between 0 and 200 |
| Metrics.Bumpiness | src/board.cpp:217-236 | `bumpiness` returns the sum of the absolute height differences of adjacent columns |
| Metrics.TruncateTowardZero | src/board.cpp:186 | converting a double to int drops the fraction, rounding toward zero on both sides of 0 |
| Metrics.EvaluateBoard | src/board.cpp:180-187 | the weighted sum of height, score, holes and bumpiness truncated toward zero: within 1 of the sum and no farther from 0; for a non-negative score it never exceeds 0.76 times the score, since the grid terms only lower it |
| Metrics.ScoreNeverLowersEvaluation | src/board.cpp:180-187 | on a fixed grid, a higher score never lowers the evaluation |
| Search.ChosenNext | src/board.cpp:277-281 | the strict `>` update keeps the largest value seen and the first candidate to reach it |
| Search.SearchComplete | src/board.cpp:238-285 | after all 40 candidates, the choice is the first candidate of highest value and it fits; there is no choice exactly when no candidate beats INT_MIN |
| Search.Turned | src/board.cpp:246-248 | the copy of the piece is turned `rotation` times |
| Engine.Fall | src/board.cpp:82-84 | the drop loop stops at the first row below which the piece no longer fits: it fits at every row from the start down to the result and not one row lower |
| Engine.DropPiece | src/board.cpp:80-86 | once the game is over nothing changes; otherwise the loop ends at the landing row and the piece locks there |
| Search.MarkAndEvaluate | src/board.cpp:257-275 | the evaluation sees the landed piece's cells marked filled, and the grid is restored afterwards |
| Search.TryCandidate | src/board.cpp:243-282 | one candidate gives the probe's value, or nothing when the turned piece does not fit at row 0; the grid is left as it was |
| Search.VisitColumns | src/board.cpp:242-283 | after all ten columns of a rotation, the best value and the first candidate reaching it cover those columns too; the grid is left as it was |
| Search.BestPlacement | src/board.cpp:238-285 | the search with `evaluateBoard` as the evaluation: the result is the first fitting placement of highest evaluation, and there is none exactly when no placement beats INT_MIN |
| Search.BestMove | src/board.cpp:238-285 | the grid is left exactly as it was; a result is a candidate (rotation 0..3, column 0..9) that fits at row 0 and beats INT_MIN, every candidate is at most as good, and every earlier one is strictly worse; there is no result exactly when no candidate beats INT_MIN |
| Search.ProbeIsDropWithoutLock | src/board.cpp:250-264 | the cells the probe marks are the cells a hard drop of the turned piece from row 0 would fill |

## Left out

- Rendering (`Board::draw`, `Piece::draw`) and all of src/game.cpp: the SDL
  window, the frame loop and timing, input, menus and the AI driver.
- `rand()`: the kind and colour drawn by `spawnPiece` are arguments of
  `Spawn`, `MoveDown`, `Drop`, `Lock` and `NewBoard`.
- The random piece built by the `Piece()` constructor: `spawnPiece`
  overwrites its kind, colour, offsets and position before anyone can see
  it, so `NewBoard` starts directly from the spawn.
- `isPieceLocked`: the board writes it but never reads it.
- include/block.h is not part of this model. `Block` is taken to be a pair
  of `int` coordinates.
- Lock: the score is an unbounded natural number. The source's `int` would
  overflow only after about 2.7 million four-line clears.
- EvaluateBoard: the source computes in `double` with the inexact constants
  0.76, 0.35 and 0.18. The model computes over exact reals and then truncates
  toward zero, so values that sit on a rounding boundary may differ.
- BestMove: the evaluation is a parameter, a function of the probe grid and
  the score, so the search's properties hold for any evaluation;
  `Search.BestPlacement` is the source's instance, with `EvaluateBoard`. It returns
  an unbounded `int` where the source's `evaluateBoard` returns a 32-bit
  `int`. When no candidate beats INT_MIN the source leaves the caller's
  `bestX` and `bestRotation` unassigned; the model returns `None`.
- Byte-wide colour channels (`Uint8`) are modelled as integers 0..255. No
  arithmetic is done on them.
