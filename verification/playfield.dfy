/** The 20-row by 10-column grid of cells (include/board.h) and the cell
    writes the board performs on it: locking a piece, and the temporary
    marking and unmarking done by the placement search. Row 0 is the top
    row; rows grow downward. */
module Playfield {
  import opened Tetromino

  const Width: int := 10
  const Height: int := 20

  datatype Cell = Cell(filled: bool, color: Rgb)

  /** The cell the constructor and a line clear leave behind. */
  const EmptyCell: Cell := Cell(false, Rgb(0, 0, 0))

  type Row = r: seq<Cell> | |r| == Width
    witness seq(10, _ => Cell(false, Rgb(0, 0, 0)))

  type Grid = g: seq<Row> | |g| == Height
    witness seq(20, _ => seq(10, _ => Cell(false, Rgb(0, 0, 0))))

  const EmptyRow: Row := [EmptyCell, EmptyCell, EmptyCell, EmptyCell, EmptyCell,
                          EmptyCell, EmptyCell, EmptyCell, EmptyCell, EmptyCell]

  /** The grid the constructor builds. */
  const EmptyGrid: Grid := [EmptyRow, EmptyRow, EmptyRow, EmptyRow, EmptyRow,
                            EmptyRow, EmptyRow, EmptyRow, EmptyRow, EmptyRow,
                            EmptyRow, EmptyRow, EmptyRow, EmptyRow, EmptyRow,
                            EmptyRow, EmptyRow, EmptyRow, EmptyRow, EmptyRow]

  /** A cell position inside the grid. */
  predicate OnGrid(c: Block) {
    0 <= c.x < Width && 0 <= c.y < Height
  }

  /** The absolute cells of offsets `s` anchored at (x, y). */
  function AbsCells(s: Shape, x: int, y: int): (r: seq<Block>)
    ensures |r| == 4
    ensures forall i :: 0 <= i < 4 ==> r[i] == Block(s[i].x + x, s[i].y + y)
  {
    [Block(s[0].x + x, s[0].y + y), Block(s[1].x + x, s[1].y + y),
     Block(s[2].x + x, s[2].y + y), Block(s[3].x + x, s[3].y + y)]
  }

  /** What a write does to one cell: locking stores the colour and fills it;
      the search only flips the filled flag and leaves the colour alone. */
  datatype Paint = Fill(color: Rgb) | MarkFilled | MarkEmpty

  function Apply(p: Paint, c: Cell): Cell {
    match p
    case Fill(rgb) => Cell(true, rgb)
    case MarkFilled => c.(filled := true)
    case MarkEmpty => c.(filled := false)
  }

  /** Every cell that will actually be written (row >= 0) is inside the grid;
      cells above the grid (row < 0) are skipped by the writer. */
  predicate Writable(cells: seq<Block>) {
    forall i :: 0 <= i < |cells| && cells[i].y >= 0 ==> OnGrid(cells[i])
  }

  /** Writes `p` into each listed cell with row >= 0, in order. Afterwards a
      grid position holds the painted cell exactly when it is listed, and is
      unchanged otherwise. */
  function PaintCells(g: Grid, cells: seq<Block>, p: Paint): (r: Grid)
    requires Writable(cells)
    ensures forall y, x :: 0 <= y < Height && 0 <= x < Width ==>
      r[y][x] == if Block(x, y) in cells then Apply(p, g[y][x]) else g[y][x]
    decreases |cells|
  {
    if |cells| == 0 then g
    else
      var c := cells[0];
      var g1: Grid := if c.y >= 0 then g[c.y := g[c.y][c.x := Apply(p, g[c.y][c.x])]] else g;
      assert forall i :: 0 <= i < |cells[1..]| ==> cells[1..][i] == cells[i + 1];
      var r := PaintCells(g1, cells[1..], p);
      assert forall y, x :: 0 <= y < Height && 0 <= x < Width ==>
        (Block(x, y) in cells <==> Block(x, y) == c || Block(x, y) in cells[1..]);
      r
  }

  /** Two writes that both fill their cells leave the same filled flags,
      whatever colour they store. */
  lemma FillFlagsAgree(g: Grid, cells: seq<Block>, c: Rgb)
    requires Writable(cells)
    ensures forall y, x :: 0 <= y < Height && 0 <= x < Width ==>
      PaintCells(g, cells, Fill(c))[y][x].filled == PaintCells(g, cells, MarkFilled)[y][x].filled
  {
  }

  /** Two grids that agree on every cell are equal. */
  lemma GridExt(a: Grid, b: Grid)
    requires forall y, x :: 0 <= y < Height && 0 <= x < Width ==> a[y][x] == b[y][x]
    ensures a == b
  {
    forall y | 0 <= y < Height
      ensures a[y] == b[y]
    {
      assert forall x :: 0 <= x < Width ==> a[y][x] == b[y][x];
    }
  }

  /** Marking a set of empty cells as filled and then as empty again gives
      back the original grid, colours included. */
  lemma {:induction false} MarkThenUnmarkRestores(g: Grid, cells: seq<Block>)
    requires Writable(cells)
    requires forall i :: 0 <= i < |cells| && cells[i].y >= 0 ==> !g[cells[i].y][cells[i].x].filled
    ensures PaintCells(PaintCells(g, cells, MarkFilled), cells, MarkEmpty) == g
  {
    var m := PaintCells(g, cells, MarkFilled);
    var u := PaintCells(m, cells, MarkEmpty);
    forall y, x | 0 <= y < Height && 0 <= x < Width
      ensures u[y][x] == g[y][x]
    {
      if Block(x, y) in cells {
        var i :| 0 <= i < |cells| && cells[i] == Block(x, y);
        assert !g[y][x].filled;
      }
    }
    GridExt(u, g);
  }
}
