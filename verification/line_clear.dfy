/** Line clearing (`Board::clearLines`, src/board.cpp): full rows disappear,
    the rows above each one drop down, and empty rows enter at the top. */
module LineClear {
  import opened Playfield

  predicate IsRowFull(row: Row) {
    forall x :: 0 <= x < Width ==> row[x].filled
  }

  predicate NoFullRow(g: Grid) {
    forall y :: 0 <= y < Height ==> !IsRowFull(g[y])
  }

  /** The rows of `rows` that are not full, in their original order. */
  function Kept(rows: seq<Row>): (r: seq<Row>)
    ensures |r| <= |rows|
    ensures forall i :: 0 <= i < |r| ==> !IsRowFull(r[i])
  {
    if |rows| == 0 then []
    else if IsRowFull(rows[|rows| - 1]) then Kept(rows[..|rows| - 1])
    else Kept(rows[..|rows| - 1]) + [rows[|rows| - 1]]
  }

  /** `n` empty rows. */
  function Blank(n: nat): (r: seq<Row>)
    ensures |r| == n && forall i :: 0 <= i < n ==> r[i] == EmptyRow
  {
    seq(n, _ => EmptyRow)
  }

  datatype Cleared = Cleared(grid: Grid, lines: nat)

  /** Reference meaning of a line clear: the surviving rows settle at the
      bottom in their original order, one empty row enters at the top per
      removed row, and `lines` counts the removed rows. */
  function ClearLines(g: Grid): (r: Cleared)
    ensures NoFullRow(r.grid)
  {
    var k := Kept(g);
    var n := Height - |k|;
    var r := Cleared(Blank(n) + k, n);
    assert !IsRowFull(EmptyRow) by { assert !EmptyRow[0].filled; }
    assert forall y :: 0 <= y < Height ==> r.grid[y] == if y < n then EmptyRow else k[y - n];
    r
  }

  /** Only full rows are removed: a grid with none is left as it is, and
      conversely a clear that removes nothing found no full row. */
  lemma {:induction false} ClearWithoutFullRows(g: Grid)
    ensures NoFullRow(g) <==> ClearLines(g) == Cleared(g, 0)
  {
    if NoFullRow(g) {
      KeptAll(g);
    }
  }

  lemma {:induction false} KeptAll(rows: seq<Row>)
    requires forall i :: 0 <= i < |rows| ==> !IsRowFull(rows[i])
    ensures Kept(rows) == rows
  {
    if |rows| > 0 {
      KeptAll(rows[..|rows| - 1]);
      assert rows[..|rows| - 1] + [rows[|rows| - 1]] == rows;
    }
  }

  /** The inner test of the scan: walk the row and stop at the first empty
      cell. */
  method RowIsFull(row: Row) returns (isLineFull: bool)
    ensures isLineFull <==> IsRowFull(row)
  {
    isLineFull := true;
    var x := 0;
    while x < Width
      invariant 0 <= x <= Width
      invariant isLineFull <==> forall c :: 0 <= c < x ==> row[c].filled
    {
      if !row[x].filled {
        isLineFull := false;
        break;
      }
      x := x + 1;
    }
  }

  /** The collapse of the source: rows y-1 down to 0 are each copied one
      row lower, overwriting row y, and row 0 is emptied. */
  method CollapseRow(g0: Grid, y: int) returns (g: Grid)
    requires 0 <= y < Height
    ensures g[..y + 1] == [EmptyRow] + g0[..y]
    ensures g[y + 1..] == g0[y + 1..]
  {
    g := g0;
    var j := y;
    while j > 0
      invariant 0 <= j <= y
      invariant forall k :: 0 <= k <= j ==> g[k] == g0[k]
      invariant forall k :: j < k <= y ==> g[k] == g0[k - 1]
      invariant forall k :: y < k < Height ==> g[k] == g0[k]
    {
      g := g[j := g[j - 1]];
      j := j - 1;
    }
    g := g[0 := EmptyRow];
  }

  /** Appending a row to the rows scanned so far keeps it exactly when it
      is not full. */
  lemma KeptSnoc(rows: seq<Row>, row: Row)
    ensures Kept(rows + [row]) == if IsRowFull(row) then Kept(rows) else Kept(rows) + [row]
  {
    assert (rows + [row])[..|rows|] == rows;
  }

  /** The indices of the full rows. */
  function FullRows(rows: seq<Row>): set<int> {
    set i | 0 <= i < |rows| && IsRowFull(rows[i])
  }

  /** The rows a clear drops are exactly the full ones: as many rows go as
      there are full rows. */
  lemma {:induction false} DroppedAreFull(rows: seq<Row>)
    ensures |rows| - |Kept(rows)| == |FullRows(rows)|
  {
    if |rows| > 0 {
      var init := rows[..|rows| - 1];
      var last := rows[|rows| - 1];
      DroppedAreFull(init);
      assert rows == init + [last];
      KeptSnoc(init, last);
      if IsRowFull(last) {
        assert FullRows(rows) == FullRows(init) + {|init|};
      } else {
        assert FullRows(rows) == FullRows(init);
      }
    }
  }

  /** A subset is no larger than its superset. */
  lemma SubsetNoLarger(a: set<int>, b: set<int>)
    requires a <= b
    ensures |a| <= |b|
  {
    var c := b - a;
    assert a + c == b;
    assert a * c == {};
    assert |a + c| + |a * c| == |a| + |c|;
  }

  /** The scan of the source: rows are visited top to bottom once, and a
      full row is collapsed. The rows that a collapse moves down onto row `y`
      were visited already and found not full, so the scan need not look at
      row `y` again: after visiting row `y`, rows 0..y hold no full row. */
  method ClearLinesScan(g0: Grid) returns (g: Grid, lines: nat)
    ensures Cleared(g, lines) == ClearLines(g0)
    ensures NoFullRow(g)
  {
    g := g0;
    lines := 0;
    var y := 0;
    while y < Height
      invariant 0 <= y <= Height
      invariant g[y..] == g0[y..]
      invariant g[..y] == Blank(lines) + Kept(g0[..y])
    {
      assert g[y] == g0[y] by { assert g[y..][0] == g0[y..][0]; }
      var isLineFull := RowIsFull(g[y]);
      assert g0[..y + 1] == g0[..y] + [g0[y]];
      KeptSnoc(g0[..y], g0[y]);
      if isLineFull {
        lines := lines + 1;
        g := CollapseRow(g, y);
      } else {
        assert g[..y + 1] == g[..y] + [g0[y]];
      }
      assert g[y + 1..] == g0[y + 1..];
      y := y + 1;
    }
    assert g[..Height] == g && g0[..Height] == g0;
  }
}
