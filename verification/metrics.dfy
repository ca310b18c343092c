/** The grid measures the placement search scores boards with
    (`countHoles`, `aggregateHeight`, `bumpiness` and `evaluateBoard` in
    src/board.cpp). Each measure reads the grid only. */
module Metrics {
  import opened Playfield

  function Abs(v: int): nat {
    if v < 0 then -v else v
  }

  /** The first filled row of column `x` at or below row `y`, or Height when
      the rest of the column is empty. */
  function TopFrom(g: Grid, x: int, y: int): (t: int)
    requires 0 <= x < Width && 0 <= y <= Height
    ensures y <= t <= Height
    decreases Height - y
  {
    if y == Height then Height
    else if g[y][x].filled then y
    else TopFrom(g, x, y + 1)
  }

  /** The rows skipped by the walk are empty and the row it stops at, if
      any, is filled. */
  lemma {:induction false} TopFromMeaning(g: Grid, x: int, y: int)
    requires 0 <= x < Width && 0 <= y <= Height
    ensures forall k :: y <= k < TopFrom(g, x, y) ==> !g[k][x].filled
    ensures TopFrom(g, x, y) < Height ==> g[TopFrom(g, x, y)][x].filled
    decreases Height - y
  {
    if y < Height && !g[y][x].filled {
      TopFromMeaning(g, x, y + 1);
    }
  }

  /** The height of column `x`: Height minus the row of its topmost filled
      cell, or 0 when the column is empty. */
  function ColumnHeight(g: Grid, x: int): (h: int)
    requires 0 <= x < Width
    ensures 0 <= h <= Height
  {
    Height - TopFrom(g, x, 0)
  }

  /** Empty rows at the top of a column do not change where the walk stops. */
  lemma {:induction false} TopFromSkips(g: Grid, x: int, y: int)
    requires 0 <= x < Width && 0 <= y <= Height
    requires forall k :: 0 <= k < y ==> !g[k][x].filled
    ensures TopFrom(g, x, 0) == TopFrom(g, x, y)
  {
    if y > 0 {
      TopFromSkips(g, x, y - 1);
    }
  }

  /** What a column height means: the column is empty exactly when its
      height is 0, and otherwise the topmost filled cell is at row
      Height - h with only empty cells above it. */
  lemma ColumnHeightMeaning(g: Grid, x: int)
    requires 0 <= x < Width
    ensures ColumnHeight(g, x) == 0 <==> forall y :: 0 <= y < Height ==> !g[y][x].filled
    ensures ColumnHeight(g, x) > 0 ==> g[Height - ColumnHeight(g, x)][x].filled
    ensures forall y :: 0 <= y < Height - ColumnHeight(g, x) ==> !g[y][x].filled
  {
    TopFromMeaning(g, x, 0);
  }

  /** A hole: an empty cell with at least one filled cell above it in the
      same column. */
  predicate IsHole(g: Grid, x: int, y: int)
    requires 0 <= x < Width && 0 <= y < Height
  {
    !g[y][x].filled && exists k :: 0 <= k < y && g[k][x].filled
  }

  /** The holes among the first `n` rows of column `x`. */
  function HolesTo(g: Grid, x: int, n: int): nat
    requires 0 <= x < Width && 0 <= n <= Height
  {
    if n == 0 then 0 else HolesTo(g, x, n - 1) + (if IsHole(g, x, n - 1) then 1 else 0)
  }

  /** The filled cells among the first `n` rows of column `x`. */
  function FilledTo(g: Grid, x: int, n: int): nat
    requires 0 <= x < Width && 0 <= n <= Height
  {
    if n == 0 then 0 else FilledTo(g, x, n - 1) + (if g[n - 1][x].filled then 1 else 0)
  }

  /** The holes of the first `n` columns. */
  function TotalHoles(g: Grid, n: int): nat
    requires 0 <= n <= Width
  {
    if n == 0 then 0 else TotalHoles(g, n - 1) + HolesTo(g, n - 1, Height)
  }

  /** The filled cells of the first `n` columns. */
  function TotalFilled(g: Grid, n: int): nat
    requires 0 <= n <= Width
  {
    if n == 0 then 0 else TotalFilled(g, n - 1) + FilledTo(g, n - 1, Height)
  }

  /** The summed heights of the first `n` columns. */
  function TotalHeight(g: Grid, n: int): nat
    requires 0 <= n <= Width
  {
    if n == 0 then 0 else TotalHeight(g, n - 1) + ColumnHeight(g, n - 1)
  }

  /** The height differences of adjacent columns among the first `n`. */
  function TotalBumpiness(g: Grid, n: int): nat
    requires 0 <= n <= Width
  {
    if n <= 1 then 0 else TotalBumpiness(g, n - 1) + Abs(ColumnHeight(g, n - 1) - ColumnHeight(g, n - 2))
  }

  /** Below the topmost filled cell every row is either filled or a hole,
      and above it neither: holes and filled cells of a column add up to its
      height. */
  lemma {:induction false} ColumnAccounting(g: Grid, x: int, n: int)
    requires 0 <= x < Width && 0 <= n <= Height
    ensures HolesTo(g, x, n) + FilledTo(g, x, n) ==
      if n <= TopFrom(g, x, 0) then 0 else n - TopFrom(g, x, 0)
  {
    if n > 0 {
      ColumnAccounting(g, x, n - 1);
      TopFromMeaning(g, x, 0);
      var t := TopFrom(g, x, 0);
      if n - 1 < t {
        assert !IsHole(g, x, n - 1);
      } else if n - 1 > t && !g[n - 1][x].filled {
        assert IsHole(g, x, n - 1);
      }
    }
  }

  /** Over the whole grid: holes plus filled cells equal the aggregate height. */
  lemma {:induction false} GridAccounting(g: Grid, n: int)
    requires 0 <= n <= Width
    ensures TotalHoles(g, n) + TotalFilled(g, n) == TotalHeight(g, n)
  {
    if n > 0 {
      var c := n - 1;
      GridAccounting(g, c);
      ColumnAccounting(g, c, Height);
      assert TotalHoles(g, n) == TotalHoles(g, c) + HolesTo(g, c, Height);
      assert TotalFilled(g, n) == TotalFilled(g, c) + FilledTo(g, c, Height);
      assert TotalHeight(g, n) == TotalHeight(g, c) + ColumnHeight(g, c);
    }
  }

  /** The aggregate height never exceeds 20 rows per column. */
  lemma {:induction false} HeightBound(g: Grid, n: int)
    requires 0 <= n <= Width
    ensures TotalHeight(g, n) <= n * Height
  {
    if n > 0 {
      HeightBound(g, n - 1);
    }
  }

  /** The bumpiness is zero exactly when all columns are as high as the
      first one. */
  lemma {:induction false} FlatIffNoBumps(g: Grid, n: int)
    requires 1 <= n <= Width
    ensures TotalBumpiness(g, n) == 0 <==> forall c :: 0 <= c < n ==> ColumnHeight(g, c) == ColumnHeight(g, 0)
  {
    if n > 1 {
      FlatIffNoBumps(g, n - 1);
    }
  }

  /** No cell of the grid is filled. */
  predicate AllEmpty(g: Grid) {
    forall y, x :: 0 <= y < Height && 0 <= x < Width ==> !g[y][x].filled
  }

  /** A grid with no filled cell has no holes, no height and no bumps. */
  lemma {:induction false} EmptyMeasures(g: Grid, n: int)
    requires AllEmpty(g)
    requires 0 <= n <= Width
    ensures TotalHoles(g, n) == 0
    ensures TotalHeight(g, n) == 0
    ensures TotalBumpiness(g, n) == 0
  {
    if n > 0 {
      EmptyMeasures(g, n - 1);
      var c := n - 1;
      assert TopFrom(g, c, 0) == Height by { EmptyColumnTop(g, c, 0); }
      ColumnAccounting(g, c, Height);
      if n > 1 {
        assert TopFrom(g, c - 1, 0) == Height by { EmptyColumnTop(g, c - 1, 0); }
      }
    }
  }

  lemma {:induction false} EmptyColumnTop(g: Grid, x: int, y: int)
    requires AllEmpty(g)
    requires 0 <= x < Width && 0 <= y <= Height
    ensures TopFrom(g, x, y) == Height
    decreases Height - y
  {
    if y < Height {
      EmptyColumnTop(g, x, y + 1);
    }
  }

  /** The grid the constructor builds has no holes, no height and no bumps. */
  lemma EmptyGridMeasures()
    ensures TotalHoles(EmptyGrid, Width) == 0
    ensures TotalHeight(EmptyGrid, Width) == 0
    ensures TotalBumpiness(EmptyGrid, Width) == 0
  {
    assert AllEmpty(EmptyGrid);
    EmptyMeasures(EmptyGrid, Width);
  }

  /** The height scan both `aggregateHeight` and `bumpiness` run on a
      column: walk down from row 0 and stop at the first filled cell. */
  method ScanHeight(g: Grid, x: int) returns (h: int)
    requires 0 <= x < Width
    ensures h == ColumnHeight(g, x)
  {
    h := 0;
    var y := 0;
    while y < Height
      invariant 0 <= y <= Height
      invariant forall k :: 0 <= k < y ==> !g[k][x].filled
      invariant h == 0
    {
      if g[y][x].filled {
        h := Height - y;
        TopFromSkips(g, x, y);
        break;
      }
      y := y + 1;
    }
    if y == Height {
      TopFromSkips(g, x, Height);
    }
  }

  /** `countHoles`: per column, scanning top to bottom, every empty cell met
      after the first filled one is a hole. */
  method CountHoles(g: Grid) returns (holes: int)
    ensures holes == TotalHoles(g, Width)
  {
    holes := 0;
    var x := 0;
    while x < Width
      invariant 0 <= x <= Width
      invariant holes == TotalHoles(g, x)
    {
      var blockFound := false;
      var y := 0;
      while y < Height
        invariant 0 <= y <= Height
        invariant blockFound <==> exists k :: 0 <= k < y && g[k][x].filled
        invariant holes == TotalHoles(g, x) + HolesTo(g, x, y)
      {
        if g[y][x].filled {
          blockFound := true;
        } else if blockFound && !g[y][x].filled {
          holes := holes + 1;
        }
        y := y + 1;
      }
      x := x + 1;
    }
  }

  /** `aggregateHeight`: the column heights summed; at most 200. */
  method AggregateHeight(g: Grid) returns (height: int)
    ensures height == TotalHeight(g, Width)
    ensures 0 <= height <= Width * Height
  {
    height := 0;
    var x := 0;
    while x < Width
      invariant 0 <= x <= Width
      invariant height == TotalHeight(g, x)
    {
      var h := ScanHeight(g, x);
      height := height + h;
      x := x + 1;
    }
    HeightBound(g, Width);
  }

  lemma BumpinessStep(g: Grid, x: int)
    requires 0 <= x < Width
    ensures TotalBumpiness(g, x + 1) ==
      if x == 0 then 0 else TotalBumpiness(g, x) + Abs(ColumnHeight(g, x) - ColumnHeight(g, x - 1))
  {
  }

  /** `bumpiness`: the absolute height differences of the nine adjacent
      column pairs, summed. */
  method Bumpiness(g: Grid) returns (bumpiness: int)
    ensures bumpiness == TotalBumpiness(g, Width)
  {
    bumpiness := 0;
    var previousHeight := 0;
    var x := 0;
    while x < Width
      invariant 0 <= x <= Width
      invariant bumpiness == TotalBumpiness(g, x)
      invariant x > 0 ==> previousHeight == ColumnHeight(g, x - 1)
      invariant 0 <= previousHeight <= Height
    {
      var currentHeight := ScanHeight(g, x);
      if x > 0 {
        bumpiness := bumpiness + Abs(currentHeight - previousHeight);
      }
      BumpinessStep(g, x);
      previousHeight := currentHeight;
      x := x + 1;
    }
  }

  /** C++'s conversion of a double to `int`: the fraction is dropped, so the
      result rounds toward zero. */
  function TruncateTowardZero(v: real): (r: int)
    ensures 0.0 <= v ==> r as real <= v < r as real + 1.0
    ensures v < 0.0 ==> r as real - 1.0 < v <= r as real
  {
    if v >= 0.0 then v.Floor else -((-v).Floor)
  }

  /** The weighted sum of `evaluateBoard` before its conversion to `int`,
      over exact reals: -0.5 per unit of height, +0.76 per point of score,
      -0.35 per hole and -0.18 per unit of bumpiness. */
  function RawEvaluation(g: Grid, score: int): real {
    -0.5 * (TotalHeight(g, Width) as real) + 0.76 * (score as real)
    - 0.35 * (TotalHoles(g, Width) as real) - 0.18 * (TotalBumpiness(g, Width) as real)
  }

  /** `evaluateBoard`: the weighted sum truncated toward zero. The grid
      terms can only pull it down, so it never exceeds the score's share. */
  function EvaluateBoard(g: Grid, score: int): (r: int)
    ensures 0.0 <= RawEvaluation(g, score) ==> r as real <= RawEvaluation(g, score) < r as real + 1.0
    ensures RawEvaluation(g, score) < 0.0 ==> r as real - 1.0 < RawEvaluation(g, score) <= r as real
    ensures 0 <= score ==> r as real <= 0.76 * (score as real)
  {
    TruncateTowardZero(RawEvaluation(g, score))
  }

  /** The evaluation mixes the session score into a judgement of the grid:
      on a fixed grid, a higher score never lowers it. */
  lemma ScoreNeverLowersEvaluation(g: Grid, s1: int, s2: int)
    requires s1 <= s2
    ensures EvaluateBoard(g, s1) <= EvaluateBoard(g, s2)
  {
    assert RawEvaluation(g, s1) <= RawEvaluation(g, s2);
  }
}
