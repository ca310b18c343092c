/** The board state machine of src/board.cpp: the fit test, spawning, the
    player's moves, locking, scoring and the terminal game-over flag.
    A board is an immutable value and each operation returns the next one.
    The two `rand()` draws of a spawn are the `next`/`nextColor` parameters
    of every operation that may lock a piece and spawn the following one. */
module Engine {
  import opened Tetromino
  import opened Playfield
  import opened LineClear

  /** Where a spawned piece is first put: the middle column, two rows above
      the grid. */
  const SpawnX: int := Width / 2
  const SpawnY: int := -2

  datatype Board = Board(grid: Grid, piece: Piece, score: nat, gameOver: bool)

  /** A cell a piece block may occupy: inside the columns, above the floor,
      and either above the grid or on an empty grid cell. */
  predicate CellFree(g: Grid, c: Block) {
    0 <= c.x < Width && c.y < Height && (c.y < 0 || !g[c.y][c.x].filled)
  }

  /** Offsets `s` anchored at (x, y) fit when all four absolute cells are free. */
  predicate Fits(g: Grid, s: Shape, x: int, y: int) {
    forall i :: 0 <= i < 4 ==> CellFree(g, Block(s[i].x + x, s[i].y + y))
  }

  /** The loop of `isPieceFit` from block `i` on, returning at the first
      block that is outside the columns, at or below the floor, or on a
      filled cell. */
  function FitFrom(g: Grid, s: Shape, x: int, y: int, i: nat): (r: bool)
    requires i <= 4
    ensures r <==> forall j :: i <= j < 4 ==> CellFree(g, Block(s[j].x + x, s[j].y + y))
    decreases 4 - i
  {
    if i == 4 then true
    else if s[i].x + x < 0 || s[i].x + x >= Width || s[i].y + y >= Height then false
    else if s[i].y + y >= 0 && g[s[i].y + y][s[i].x + x].filled then false
    else FitFrom(g, s, x, y, i + 1)
  }

  /** `isPieceFit`: the position of the piece is passed separately from its
      offsets, as in the source. */
  function IsPieceFit(g: Grid, s: Shape, x: int, y: int): (r: bool)
    ensures r <==> Fits(g, s, x, y)
  {
    FitFrom(g, s, x, y, 0)
  }

  /** Cells above the grid never collide: a piece entirely above row 0 fits
      on every grid exactly when its columns are in range. */
  lemma AboveGridNeverCollides(g: Grid, s: Shape, x: int, y: int)
    requires forall i :: 0 <= i < 4 ==> s[i].y + y < 0
    ensures Fits(g, s, x, y) <==> forall i :: 0 <= i < 4 ==> 0 <= s[i].x + x < Width
  {
  }

  /** A fitting piece only covers grid cells that may be written. */
  lemma FitsWritable(g: Grid, s: Shape, x: int, y: int)
    requires Fits(g, s, x, y)
    ensures Writable(AbsCells(s, x, y))
    ensures forall i :: 0 <= i < 4 && AbsCells(s, x, y)[i].y >= 0 ==>
      !g[AbsCells(s, x, y)[i].y][AbsCells(s, x, y)[i].x].filled
  {
    var c := AbsCells(s, x, y);
    forall i | 0 <= i < |c| && c[i].y >= 0
      ensures OnGrid(c[i]) && !g[c[i].y][c[i].x].filled
    {
      assert CellFree(g, Block(s[i].x + x, s[i].y + y));
    }
  }

  /** The absolute cells of the board's current piece. */
  function PieceCells(p: Piece): seq<Block> {
    AbsCells(p.blocks, p.position.x, p.position.y)
  }

  /** The class invariant that keeps the raw grid writes in bounds: while
      the game runs, the current piece fits where it stands. */
  predicate Live(b: Board) {
    !b.gameOver ==> Fits(b.grid, b.piece.blocks, b.piece.position.x, b.piece.position.y)
  }

  /** Everything the board keeps true between calls: the live piece fits,
      its offsets are distinct and within [-2, 2], and no row is full. */
  predicate Inv(b: Board) {
    Live(b) && WellShaped(b.piece.blocks) && NoFullRow(b.grid)
  }

  /** `spawnPiece`: a fresh piece of the drawn kind and colour is put at
      (SpawnX, SpawnY). If it fits two rows lower, at the top row, it moves
      there; otherwise the game is over and the piece stays where it was put.
      Grid and score are never touched. */
  function Spawn(b: Board, next: Kind, nextColor: ColorName): (r: Board)
    ensures r.grid == b.grid && r.score == b.score
    ensures r.piece.kind == next && r.piece.blocks == ShapeOf(next)
    ensures r.piece.color == ColorOf(nextColor) && r.piece.position.x == SpawnX
    ensures r.gameOver <==> b.gameOver || !Fits(b.grid, ShapeOf(next), SpawnX, 0)
    ensures r.piece.position.y == if Fits(b.grid, ShapeOf(next), SpawnX, 0) then 0 else SpawnY
    ensures Live(r) && WellShaped(r.piece.blocks)
  {
    TurnedShapes(next, 0);
    var p := SetColor(SetType(b.piece, next), nextColor).(position := Block(SpawnX, SpawnY));
    if !IsPieceFit(b.grid, p.blocks, p.position.x, p.position.y + 2) then
      b.(piece := p, gameOver := true)
    else
      b.(piece := p.(position := Block(SpawnX, 0)))
  }

  /** The points a clear of `n` lines earns: 100, 300, 500 or 800 for one to
      four lines and nothing for any other count. Clearing lines together
      always earns more than clearing them separately. */
  function Points(n: nat): (p: nat)
    ensures p > 0 <==> 1 <= n <= 4
    ensures p <= 800
    ensures forall a: nat, c: nat :: 1 <= a && 1 <= c && a + c == n <= 4 ==> Points(a) + Points(c) < p
  {
    match n
    case 1 => 100
    case 2 => 300
    case 3 => 500
    case 4 => 800
    case _ => 0
  }

  /** The cell writes of `lockPiece`: the colour is stored and the cell
      filled at exactly the piece's cells with row >= 0; cells above the
      grid are dropped. Every written cell is inside the grid and was empty
      before, and no other cell changes. */
  function Imprint(g: Grid, p: Piece): (r: Grid)
    requires Fits(g, p.blocks, p.position.x, p.position.y)
    ensures forall y, x :: 0 <= y < Height && 0 <= x < Width ==>
      r[y][x] == if Block(x, y) in PieceCells(p) then Cell(true, p.color) else g[y][x]
    ensures forall i :: 0 <= i < 4 && PieceCells(p)[i].y >= 0 ==>
      OnGrid(PieceCells(p)[i]) && !g[PieceCells(p)[i].y][PieceCells(p)[i].x].filled
  {
    FitsWritable(g, p.blocks, p.position.x, p.position.y);
    PaintCells(g, PieceCells(p), Fill(p.color))
  }

  /** `lockPiece`: imprint the piece, clear full lines and score them, then
      spawn the next piece. */
  function Lock(b: Board, next: Kind, nextColor: ColorName): (r: Board)
    requires !b.gameOver && Live(b)
    ensures r.grid == ClearLines(Imprint(b.grid, b.piece)).grid
    ensures r.score == b.score + Points(ClearLines(Imprint(b.grid, b.piece)).lines)
    ensures NoFullRow(r.grid) && Live(r) && WellShaped(r.piece.blocks)
    ensures r.gameOver <==> !Fits(r.grid, ShapeOf(next), SpawnX, 0)
    ensures r.piece.kind == next && r.piece.blocks == ShapeOf(next) && r.piece.color == ColorOf(nextColor)
    ensures r.piece.position == Block(SpawnX, if r.gameOver then SpawnY else 0)
  {
    var cleared := ClearLines(Imprint(b.grid, b.piece));
    Spawn(Board(cleared.grid, b.piece, b.score + Points(cleared.lines), false), next, nextColor)
  }

  /** A lock clears at most four rows: the grid had no full row, so every
      row the imprint fills up holds one of the piece's four cells. Five or
      more lines never reach the scoring. */
  lemma LockClearsAtMostFour(b: Board)
    requires !b.gameOver && Live(b) && NoFullRow(b.grid)
    ensures ClearLines(Imprint(b.grid, b.piece)).lines <= 4
  {
    var g := Imprint(b.grid, b.piece);
    var c := PieceCells(b.piece);
    var ys := {c[0].y, c[1].y, c[2].y, c[3].y};
    forall y | y in FullRows(g)
      ensures y in ys
    {
      assert !IsRowFull(b.grid[y]);
      var x :| 0 <= x < Width && !b.grid[y][x].filled;
      assert g[y][x].filled;
      var i :| 0 <= i < 4 && c[i] == Block(x, y);
    }
    DroppedAreFull(g);
    assert |ys| <= 4;
    SubsetNoLarger(FullRows(g), ys);
  }

  /** The board with its piece moved to column x, row y. */
  function MoveTo(b: Board, x: int, y: int): Board {
    b.(piece := b.piece.(position := Block(x, y)))
  }

  /** `movePieceLeft`: one column left if the piece fits there, otherwise
      nothing changes; a no-op once the game is over. */
  function MoveLeft(b: Board): (r: Board)
    ensures b.gameOver || !Fits(b.grid, b.piece.blocks, b.piece.position.x - 1, b.piece.position.y) ==> r == b
    ensures !b.gameOver && Fits(b.grid, b.piece.blocks, b.piece.position.x - 1, b.piece.position.y) ==>
      r == MoveTo(b, b.piece.position.x - 1, b.piece.position.y)
  {
    if b.gameOver then b
    else
      var moved := MoveTo(b, b.piece.position.x - 1, b.piece.position.y);
      if !IsPieceFit(moved.grid, moved.piece.blocks, moved.piece.position.x, moved.piece.position.y) then
        MoveTo(moved, moved.piece.position.x + 1, moved.piece.position.y)
      else moved
  }

  /** `movePieceRight`: one column right if the piece fits there, otherwise
      nothing changes; a no-op once the game is over. */
  function MoveRight(b: Board): (r: Board)
    ensures b.gameOver || !Fits(b.grid, b.piece.blocks, b.piece.position.x + 1, b.piece.position.y) ==> r == b
    ensures !b.gameOver && Fits(b.grid, b.piece.blocks, b.piece.position.x + 1, b.piece.position.y) ==>
      r == MoveTo(b, b.piece.position.x + 1, b.piece.position.y)
  {
    if b.gameOver then b
    else
      var moved := MoveTo(b, b.piece.position.x + 1, b.piece.position.y);
      if !IsPieceFit(moved.grid, moved.piece.blocks, moved.piece.position.x, moved.piece.position.y) then
        MoveTo(moved, moved.piece.position.x - 1, moved.piece.position.y)
      else moved
  }

  /** A successful step sideways is undone by the opposite step. */
  lemma SideStepsUndo(b: Board)
    requires Live(b) && !b.gameOver
    ensures MoveLeft(b) != b ==> MoveRight(MoveLeft(b)) == b
    ensures MoveRight(b) != b ==> MoveLeft(MoveRight(b)) == b
  {
  }

  /** `rotatePiece`: one quarter turn if the turned piece fits where it
      stands; otherwise three more turns, which bring back the original
      offsets. Position, grid, score and flag never change. */
  function RotatePiece(b: Board): (r: Board)
    ensures b.gameOver || !Fits(b.grid, RotateBlocks(b.piece.blocks), b.piece.position.x, b.piece.position.y) ==> r == b
    ensures !b.gameOver && Fits(b.grid, RotateBlocks(b.piece.blocks), b.piece.position.x, b.piece.position.y) ==>
      r == b.(piece := Rotate(b.piece))
  {
    if b.gameOver then b
    else
      var p := Rotate(b.piece);
      if !IsPieceFit(b.grid, p.blocks, p.position.x, p.position.y) then
        RotateFourTimes(b.piece);
        b.(piece := Rotate(Rotate(Rotate(p))))
      else b.(piece := p)
  }

  /** `movePieceDown`: one row down if the piece fits there; otherwise the
      piece locks where it stands. A no-op once the game is over. */
  function MoveDown(b: Board, next: Kind, nextColor: ColorName): (r: Board)
    requires Live(b)
    ensures b.gameOver ==> r == b
    ensures !b.gameOver && Fits(b.grid, b.piece.blocks, b.piece.position.x, b.piece.position.y + 1) ==>
      r == MoveTo(b, b.piece.position.x, b.piece.position.y + 1)
    ensures !b.gameOver && !Fits(b.grid, b.piece.blocks, b.piece.position.x, b.piece.position.y + 1) ==>
      r == Lock(b, next, nextColor)
  {
    if b.gameOver then b
    else
      var moved := MoveTo(b, b.piece.position.x, b.piece.position.y + 1);
      if !IsPieceFit(moved.grid, moved.piece.blocks, moved.piece.position.x, moved.piece.position.y) then
        Lock(MoveTo(moved, moved.piece.position.x, moved.piece.position.y - 1), next, nextColor)
      else moved
  }

  /** The row where a piece that fits at row `y` comes to rest when it keeps
      falling: the largest row at or below `y` such that it fits at every
      row in between. The floor ends the fall, since a fit needs every block
      above row Height. */
  function LandingRow(g: Grid, s: Shape, x: int, y: int): (r: int)
    requires Fits(g, s, x, y)
    ensures y <= r
    ensures forall k :: y <= k <= r ==> Fits(g, s, x, k)
    ensures !Fits(g, s, x, r + 1)
    decreases Height - s[0].y - y
  {
    if IsPieceFit(g, s, x, y + 1) then
      assert CellFree(g, Block(s[0].x + x, s[0].y + y + 1));
      LandingRow(g, s, x, y + 1)
    else y
  }

  /** `dropPiece`: fall to the landing row and lock there; a no-op once the
      game is over. */
  function Drop(b: Board, next: Kind, nextColor: ColorName): (r: Board)
    requires Live(b)
    ensures b.gameOver ==> r == b
    ensures !b.gameOver ==>
      r == Lock(MoveTo(b, b.piece.position.x, LandingRow(b.grid, b.piece.blocks, b.piece.position.x, b.piece.position.y)), next, nextColor)
  {
    if b.gameOver then b
    else
      var p := b.piece;
      var y := LandingRow(b.grid, p.blocks, p.position.x, p.position.y);
      Lock(MoveTo(b, p.position.x, y), next, nextColor)
  }

  /** The loop shared by `dropPiece` and the placement search: while the
      next row fits, go down one row. It stops at the landing row. */
  method Fall(g: Grid, s: Shape, x: int, y0: int) returns (y: int)
    requires Fits(g, s, x, y0)
    ensures y0 <= y && !Fits(g, s, x, y + 1)
    ensures forall k :: y0 <= k <= y ==> Fits(g, s, x, k)
    ensures y == LandingRow(g, s, x, y0)
  {
    y := y0;
    while IsPieceFit(g, s, x, y + 1)
      invariant y0 <= y && Fits(g, s, x, y)
      invariant LandingRow(g, s, x, y) == LandingRow(g, s, x, y0)
      decreases Height - s[0].y - y
    {
      assert CellFree(g, Block(s[0].x + x, s[0].y + y + 1));
      y := y + 1;
    }
  }

  /** `dropPiece`: fall, then lock. The piece locks at the largest row at or
      below its own at which it fits at every row in between, and the board
      is the one the hard drop gives. */
  method DropPiece(b: Board, next: Kind, nextColor: ColorName) returns (r: Board, landed: int)
    requires Live(b)
    ensures b.gameOver ==> r == b && landed == b.piece.position.y
    ensures !b.gameOver ==>
      && landed == LandingRow(b.grid, b.piece.blocks, b.piece.position.x, b.piece.position.y)
      && r == Lock(MoveTo(b, b.piece.position.x, landed), next, nextColor)
  {
    var p := b.piece;
    if b.gameOver {
      return b, p.position.y;
    }
    landed := Fall(b.grid, p.blocks, p.position.x, p.position.y);
    r := Lock(MoveTo(b, p.position.x, landed), next, nextColor);
  }

  /** A hard drop is soft drops until the piece locks. While the row below
      is free, a soft drop followed by a hard drop gives the same board as
      the hard drop alone. */
  lemma DropAfterSoftDrop(b: Board, next: Kind, nextColor: ColorName)
    requires Live(b) && !b.gameOver
    requires Fits(b.grid, b.piece.blocks, b.piece.position.x, b.piece.position.y + 1)
    ensures Live(MoveDown(b, next, nextColor))
    ensures Drop(b, next, nextColor) == Drop(MoveDown(b, next, nextColor), next, nextColor)
  {
    var p := b.piece;
    var x, y := p.position.x, p.position.y;
    var b1 := MoveTo(b, x, y + 1);
    assert MoveDown(b, next, nextColor) == b1;
    var z := LandingRow(b.grid, p.blocks, x, y + 1);
    assert LandingRow(b.grid, p.blocks, x, y) == z;
    assert MoveTo(b1, x, z) == MoveTo(b, x, z);
    assert Drop(b1, next, nextColor) == Lock(MoveTo(b, x, z), next, nextColor);
  }

  /** Once the row below is blocked, a hard drop is one soft drop, which
      locks the piece where it stands. */
  lemma DropOnFloor(b: Board, next: Kind, nextColor: ColorName)
    requires Live(b) && !b.gameOver
    requires !Fits(b.grid, b.piece.blocks, b.piece.position.x, b.piece.position.y + 1)
    ensures Drop(b, next, nextColor) == MoveDown(b, next, nextColor)
  {
    var p := b.piece;
    var x, y := p.position.x, p.position.y;
    var z := LandingRow(b.grid, p.blocks, x, y);
    assert z == y;
    assert MoveTo(b, x, z) == b;
    assert Drop(b, next, nextColor) == Lock(b, next, nextColor);
  }

  /** The constructor: an empty grid, score 0, then a first spawn. The
      piece built before the spawn is entirely overwritten by it, so any
      piece stands in for it here. */
  function NewBoard(next: Kind, nextColor: ColorName): (r: Board)
    ensures !r.gameOver && r.score == 0 && Inv(r)
    ensures r.grid == EmptyGrid
    ensures r.piece == Piece(next, ColorOf(nextColor), ShapeOf(next), Block(SpawnX, 0))
  {
    var b := Board(EmptyGrid, Piece(next, ColorOf(nextColor), ShapeOf(next), Block(0, 0)), 0, false);
    assert Fits(EmptyGrid, ShapeOf(next), SpawnX, 0) by {
      var s := ShapeOf(next);
      forall i | 0 <= i < 4 ensures CellFree(EmptyGrid, Block(s[i].x + SpawnX, s[i].y))
      {
        if s[i].y >= 0 {
          assert EmptyGrid[s[i].y] == EmptyRow;
        }
      }
    }
    assert NoFullRow(EmptyGrid) by {
      assert forall y :: 0 <= y < Height ==> !EmptyGrid[y][0].filled;
    }
    Spawn(b, next, nextColor)
  }

  /** One call the surrounding game loop can make. */
  datatype Command =
    | Left
    | Right
    | Turn
    | Down(next: Kind, nextColor: ColorName)
    | HardDrop(next: Kind, nextColor: ColorName)

  function Step(b: Board, c: Command): Board
    requires Live(b)
  {
    match c
    case Left => MoveLeft(b)
    case Right => MoveRight(b)
    case Turn => RotatePiece(b)
    case Down(k, col) => MoveDown(b, k, col)
    case HardDrop(k, col) => Drop(b, k, col)
  }

  /** Every command keeps the invariant, never lowers the score, and once
      the game is over changes nothing at all; so the flag, once set, stays
      set. */
  lemma StepKeepsInvariant(b: Board, c: Command)
    requires Inv(b)
    ensures Inv(Step(b, c))
    ensures b.score <= Step(b, c).score
    ensures b.gameOver ==> Step(b, c) == b
  {
    match c
    case Turn =>
      if !b.gameOver {
        RotatePreservesShape(b.piece.blocks);
      }
    case _ =>
  }

  /** The board after a sequence of commands. */
  function Run(b: Board, cs: seq<Command>): (r: Board)
    requires Inv(b)
    ensures Inv(r)
    ensures b.score <= r.score
    ensures b.gameOver ==> r == b
    decreases |cs|
  {
    if |cs| == 0 then b
    else
      StepKeepsInvariant(b, cs[0]);
      Run(Step(b, cs[0]), cs[1..])
  }
}
