/** The placement search (`Board::bestMove`, src/board.cpp): every
    orientation of the current piece is tried in every column, dropped from
    the top row to where it lands, marked into the grid, scored by the
    board evaluation, and unmarked again. The first strictly best candidate
    wins. */
module Search {
  import opened Tetromino
  import opened Playfield
  import opened Engine
  import opened Metrics

  datatype Option<T> = None | Some(value: T)

  /** The `INT_MIN` the search starts from. */
  const IntMin: int := -0x8000_0000

  /** A candidate placement: the column of the pivot and the number of
      quarter turns applied to the current offsets. */
  datatype Move = Move(x: int, rotation: nat)

  /** The 4 x 10 placements the search visits. */
  predicate IsCandidate(m: Move) {
    m.rotation < 4 && 0 <= m.x < Width
  }

  /** The visiting order: rotations outermost, columns innermost. */
  predicate Before(m: Move, n: Move) {
    m.rotation < n.rotation || (m.rotation == n.rotation && m.x < n.x)
  }

  /** The grid of the probe: offsets `s`, fitting at column `x` of the top
      row, fall to their landing row there and only the filled flags of
      their cells are set. */
  function Placed(g: Grid, s: Shape, x: int): Grid
    requires Fits(g, s, x, 0)
  {
    var y := LandingRow(g, s, x, 0);
    FitsWritable(g, s, x, y);
    PaintCells(g, AbsCells(s, x, y), MarkFilled)
  }

  /** The evaluation the search gets for placement `m`, or None when the
      turned piece does not fit at the top row of that column. */
  function Probe(b: Board, eval: (Grid, int) -> int, m: Move): Option<int> {
    var s := RotateN(b.piece.blocks, m.rotation);
    if Fits(b.grid, s, m.x, 0) then Some(eval(Placed(b.grid, s, m.x), b.score)) else None
  }

  /** A placement that does not fit can never beat the starting INT_MIN, so
      it counts as INT_MIN. */
  function Score(o: Option<int>): int {
    match o
    case Some(v) => v
    case None => IntMin
  }

  function Value(b: Board, eval: (Grid, int) -> int, m: Move): int {
    Score(Probe(b, eval, m))
  }

  /** `f` gives the value of every placement the board is probed at. */
  ghost predicate Scores(b: Board, eval: (Grid, int) -> int, f: Move -> int) {
    forall m {:trigger Probe(b, eval, m)} :: f(m) == Score(Probe(b, eval, m))
  }

  /** What the search knows once every candidate before `next` is visited,
      for candidate values `f`: `bestScore` is the largest value seen
      (INT_MIN if none beat it), and `best`, if set, is the first candidate
      reaching it. */
  ghost predicate Chosen(f: Move -> int, best: Option<Move>, bestScore: int, next: Move) {
    && IntMin <= bestScore
    && (forall m :: IsCandidate(m) && Before(m, next) ==> f(m) <= bestScore)
    && (best.None? ==> bestScore == IntMin)
    && (best.Some? ==>
          && IsCandidate(best.value) && Before(best.value, next)
          && f(best.value) == bestScore && IntMin < bestScore
          && forall m :: IsCandidate(m) && Before(m, best.value) ==> f(m) < bestScore)
  }

  /** Visiting candidate `m` and keeping it exactly when its value beats
      the best so far extends the knowledge to the next column. */
  lemma ChosenNext(f: Move -> int, best: Option<Move>, bestScore: int, m: Move, value: Option<int>)
    requires IsCandidate(m) && Chosen(f, best, bestScore, m)
    requires f(m) == Score(value)
    ensures value.Some? && value.value > bestScore ==> Chosen(f, Some(m), value.value, Move(m.x + 1, m.rotation))
    ensures !(value.Some? && value.value > bestScore) ==> Chosen(f, best, bestScore, Move(m.x + 1, m.rotation))
  {
  }

  /** Past the last column of a rotation comes the first column of the next. */
  lemma ChosenNextRotation(f: Move -> int, best: Option<Move>, bestScore: int, rotation: nat)
    requires Chosen(f, best, bestScore, Move(Width, rotation))
    ensures Chosen(f, best, bestScore, Move(0, rotation + 1))
  {
  }

  /** After the last rotation every candidate has been visited. */
  lemma ChosenAll(f: Move -> int, best: Option<Move>, bestScore: int)
    requires Chosen(f, best, bestScore, Move(0, 4))
    ensures best.Some? ==> IsCandidate(best.value) && IntMin < f(best.value)
    ensures best.Some? ==> forall m :: IsCandidate(m) ==> f(m) <= f(best.value)
    ensures best.Some? ==> forall m :: IsCandidate(m) && Before(m, best.value) ==> f(m) < f(best.value)
    ensures best.None? <==> forall m :: IsCandidate(m) ==> f(m) <= IntMin
  {
  }

  /** The candidate values of a board as one function. */
  function ValueOf(b: Board, eval: (Grid, int) -> int): Move -> int {
    m => Value(b, eval, m)
  }

  /** The end of the search, in terms of the board: the choice is the
      first candidate of highest value and fits; no choice means no
      candidate beats INT_MIN. */
  lemma SearchComplete(b: Board, eval: (Grid, int) -> int, f: Move -> int, best: Option<Move>, bestScore: int)
    requires Scores(b, eval, f) && Chosen(f, best, bestScore, Move(0, 4))
    ensures best.Some? ==>
      && IsCandidate(best.value)
      && Fits(b.grid, RotateN(b.piece.blocks, best.value.rotation), best.value.x, 0)
      && IntMin < Value(b, eval, best.value)
    ensures best.Some? ==> forall m :: IsCandidate(m) ==> Value(b, eval, m) <= Value(b, eval, best.value)
    ensures best.Some? ==> forall m :: IsCandidate(m) && Before(m, best.value) ==> Value(b, eval, m) < Value(b, eval, best.value)
    ensures best.None? <==> forall m :: IsCandidate(m) ==> Value(b, eval, m) <= IntMin
  {
    ChosenAll(f, best, bestScore);
    if best.Some? {
      assert f(best.value) == Score(Probe(b, eval, best.value));
    }
  }

  /** The copy of the piece turned `rotation` times, one quarter turn at a
      time. */
  method Turned(blocks0: Shape, rotation: nat) returns (blocks: Shape)
    ensures blocks == RotateN(blocks0, rotation)
  {
    blocks := blocks0;
    var r := 0;
    while r < rotation
      invariant 0 <= r <= rotation
      invariant blocks == RotateN(blocks0, r)
    {
      blocks := RotateBlocks(blocks);
      r := r + 1;
    }
  }

  /** Mark the cells filled, evaluate, and mark them empty again: the
      evaluation sees the placed piece, and the grid comes back as it was. */
  method MarkAndEvaluate(grid0: Grid, blocks: Shape, x: int, y: int, eval: (Grid, int) -> int, score: int)
    returns (value: int, grid: Grid)
    requires Fits(grid0, blocks, x, y)
    ensures grid == grid0
    ensures value == eval(PaintCells(grid0, AbsCells(blocks, x, y), MarkFilled), score)
  {
    var cells := AbsCells(blocks, x, y);
    FitsWritable(grid0, blocks, x, y);
    MarkThenUnmarkRestores(grid0, cells);
    grid := PaintCells(grid0, cells, MarkFilled);
    value := eval(grid, score);
    grid := PaintCells(grid, cells, MarkEmpty);
  }

  /** One candidate of the search, on the board's own grid: turn a copy of
      the piece `m.rotation` times; if it fits at column `m.x` of the top
      row, let it fall, mark its cells filled, evaluate, and mark them empty
      again. The grid comes back as it was; there is a value exactly when
      the turned piece fits, and it is the candidate's value. */
  method TryCandidate(b: Board, eval: (Grid, int) -> int, grid0: Grid, m: Move)
    returns (value: Option<int>, grid: Grid)
    requires grid0 == b.grid
    ensures grid == b.grid
    ensures value == Probe(b, eval, m)
  {
    grid := grid0;
    var blocks := Turned(b.piece.blocks, m.rotation);
    if !IsPieceFit(grid, blocks, m.x, 0) {
      return None, grid;
    }
    var y := Fall(grid, blocks, m.x, 0);
    var score;
    score, grid := MarkAndEvaluate(grid, blocks, m.x, y, eval, b.score);
    value := Some(score);
  }

  /** The inner loop of the search: every column for one rotation, keeping
      a candidate only when its value beats the best so far. */
  method VisitColumns(b: Board, eval: (Grid, int) -> int, ghost f: Move -> int, grid0: Grid,
                      rotation: nat, best0: Option<Move>, bestScore0: int)
    returns (best: Option<Move>, bestScore: int, grid: Grid)
    requires rotation < 4 && grid0 == b.grid && Scores(b, eval, f)
    requires Chosen(f, best0, bestScore0, Move(0, rotation))
    ensures grid == b.grid
    ensures Chosen(f, best, bestScore, Move(Width, rotation))
  {
    grid, best, bestScore := grid0, best0, bestScore0;
    var x := 0;
    while x < Width
      invariant 0 <= x <= Width
      invariant grid == b.grid
      invariant Chosen(f, best, bestScore, Move(x, rotation))
    {
      var value;
      value, grid := TryCandidate(b, eval, grid, Move(x, rotation));
      ChosenNext(f, best, bestScore, Move(x, rotation), value);
      if value.Some? && value.value > bestScore {
        bestScore := value.value;
        best := Some(Move(x, rotation));
      }
      x := x + 1;
    }
  }

  /** `bestMove`, with `evaluateBoard` passed in as `eval`, which is given
      the probe grid and the score. The search writes into the grid and
      hands it back unchanged. A result is the first candidate of highest
      value, it fits at the top row, and its value beats INT_MIN; there is no
      result exactly when no candidate beats INT_MIN, and the caller's
      `bestX` and `bestRotation` are then left as they were. */
  method BestMove(b: Board, eval: (Grid, int) -> int) returns (best: Option<Move>, grid: Grid)
    ensures grid == b.grid
    ensures best.Some? ==>
      && IsCandidate(best.value)
      && Fits(b.grid, RotateN(b.piece.blocks, best.value.rotation), best.value.x, 0)
      && IntMin < Value(b, eval, best.value)
    ensures best.Some? ==> forall m :: IsCandidate(m) ==> Value(b, eval, m) <= Value(b, eval, best.value)
    ensures best.Some? ==> forall m :: IsCandidate(m) && Before(m, best.value) ==> Value(b, eval, m) < Value(b, eval, best.value)
    ensures best.None? <==> forall m :: IsCandidate(m) ==> Value(b, eval, m) <= IntMin
  {
    ghost var f := ValueOf(b, eval);
    grid := b.grid;
    var bestScore := IntMin;
    best := None;
    var rotation := 0;
    while rotation < 4
      invariant 0 <= rotation <= 4
      invariant grid == b.grid
      invariant Chosen(f, best, bestScore, Move(0, rotation))
    {
      best, bestScore, grid := VisitColumns(b, eval, f, grid, rotation, best, bestScore);
      ChosenNextRotation(f, best, bestScore, rotation);
      rotation := rotation + 1;
    }
    SearchComplete(b, eval, f, best, bestScore);
  }
  /** `bestMove` as the board calls it, with `evaluateBoard` as the
      evaluation: the choice is the first fitting placement of highest
      evaluation, and there is none only when no placement beats INT_MIN. */
  method BestPlacement(b: Board) returns (best: Option<Move>, grid: Grid)
    ensures grid == b.grid
    ensures best.Some? ==>
      && IsCandidate(best.value)
      && Fits(b.grid, RotateN(b.piece.blocks, best.value.rotation), best.value.x, 0)
      && IntMin < Value(b, EvaluateBoard, best.value)
    ensures best.Some? ==> forall m :: IsCandidate(m) ==> Value(b, EvaluateBoard, m) <= Value(b, EvaluateBoard, best.value)
    ensures best.Some? ==> forall m :: IsCandidate(m) && Before(m, best.value) ==>
      Value(b, EvaluateBoard, m) < Value(b, EvaluateBoard, best.value)
    ensures best.None? <==> forall m :: IsCandidate(m) ==> Value(b, EvaluateBoard, m) <= IntMin
  {
    best, grid := BestMove(b, EvaluateBoard);
  }


  /** The probe is the hard drop without the lock: for a running game, the
      cells it marks are exactly the cells a drop of the turned piece from
      the top row of that column would fill, and nothing else changes. */
  lemma ProbeIsDropWithoutLock(b: Board, m: Move)
    requires Fits(b.grid, RotateN(b.piece.blocks, m.rotation), m.x, 0)
    ensures
      var s := RotateN(b.piece.blocks, m.rotation);
      var p := b.piece.(blocks := s, position := Block(m.x, LandingRow(b.grid, s, m.x, 0)));
      forall y, x :: 0 <= y < Height && 0 <= x < Width ==>
        Placed(b.grid, s, m.x)[y][x].filled == Imprint(b.grid, p)[y][x].filled
  {
    var s := RotateN(b.piece.blocks, m.rotation);
    var p := b.piece.(blocks := s, position := Block(m.x, LandingRow(b.grid, s, m.x, 0)));
    var cells := AbsCells(s, m.x, LandingRow(b.grid, s, m.x, 0));
    assert PieceCells(p) == cells;
    FitsWritable(b.grid, s, m.x, LandingRow(b.grid, s, m.x, 0));
    FillFlagsAgree(b.grid, cells, p.color);
  }
}
