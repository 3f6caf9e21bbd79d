/**
 * The fill patterns of a Nonogram (pattern.go): the lengths of the runs of
 * filled cells of every row and of every column, derived by a loop that
 * keeps a running counter of the current run. Each loop is proved to give
 * Runs.Pattern of its line, so the properties proved in module Runs (a
 * non-empty list, [0] for a blank line, the runs in order, their sum the
 * number of filled cells, and a placement that paints the line back) hold
 * for what the loops return.
 *
 * The methods of the Nonogram receiver are module methods taking the
 * Nonogram as their first parameter.
 */
module Patterns {
  import opened Placement
  import opened Runs
  import opened Line
  import opened Grid
  import N = Nonogram
  import S = Solver

  /** Column c of a picture, top to bottom. */
  function PictureColumn(pic: seq<seq<bool>>, c: nat): (col: seq<bool>)
    requires forall r :: 0 <= r < |pic| ==> c < |pic[r]|
    ensures |col| == |pic| && forall r :: 0 <= r < |pic| ==> col[r] == pic[r][c]
  {
    seq(|pic|, r requires 0 <= r < |pic| => pic[r][c])
  }

  /** The patterns of the rows of a square picture, top to bottom. */
  function RowPatterns(pic: seq<seq<bool>>): (p: seq<seq<int>>)
    requires forall r :: 0 <= r < |pic| ==> |pic[r]| == |pic|
    ensures |p| == |pic| && forall r :: 0 <= r < |pic| ==> p[r] == Pattern(pic[r])
  {
    seq(|pic|, r requires 0 <= r < |pic| => Pattern(pic[r]))
  }

  /** The patterns of the columns of a square picture, left to right. */
  function ColumnPatterns(pic: seq<seq<bool>>): (p: seq<seq<int>>)
    requires forall r :: 0 <= r < |pic| ==> |pic[r]| == |pic|
    ensures |p| == |pic| && forall c :: 0 <= c < |pic| ==> p[c] == Pattern(PictureColumn(pic, c))
  {
    seq(|pic|, c requires 0 <= c < |pic| => Pattern(PictureColumn(pic, c)))
  }

  /**
   * The inner loop of rowFillPattern (pattern.go:32-46) for one row: a
   * filled cell lengthens the current run, a blank cell closes a run that
   * is not empty, and the last run, or a lone 0, is appended at the end.
   */
  method RowFillLine(nono: N.Nonogram, row: int) returns (runs: seq<int>)
    requires nono.Valid() && nono.n == nono.m && 0 <= row < nono.n
    ensures runs == Pattern(nono.Picture()[row])
  {
    ghost var line := nono.Picture()[row];
    runs := [];
    var blockSize := 0;
    for column := 0 to nono.m
      invariant blockSize == Trailing(line[..column])
      invariant runs == Completed(line[..column])
    {
      N.SquareIndex(nono.n, row, column);
      ReadStep(line, column);
      if nono.Get(row, column) {
        blockSize := blockSize + 1;
      } else {
        if blockSize > 0 {
          runs := runs + [blockSize];
        }
        blockSize := 0;
      }
    }
    assert line[..nono.m] == line;
    if blockSize != 0 || |runs| == 0 {
      runs := runs + [blockSize];
    }
  }

  /** The inner loop of columnFillPattern (pattern.go:55-69) for one column, top to bottom. */
  method ColumnFillLine(nono: N.Nonogram, column: int) returns (runs: seq<int>)
    requires nono.Valid() && nono.n == nono.m && 0 <= column < nono.m
    ensures runs == Pattern(PictureColumn(nono.Picture(), column))
  {
    ghost var line := PictureColumn(nono.Picture(), column);
    runs := [];
    var blockSize := 0;
    for row := 0 to nono.n
      invariant blockSize == Trailing(line[..row])
      invariant runs == Completed(line[..row])
    {
      N.SquareIndex(nono.n, row, column);
      ReadStep(line, row);
      if nono.Get(row, column) {
        blockSize := blockSize + 1;
      } else {
        if blockSize > 0 {
          runs := runs + [blockSize];
        }
        blockSize := 0;
      }
    }
    assert line[..nono.n] == line;
    if blockSize != 0 || |runs| == 0 {
      runs := runs + [blockSize];
    }
  }

  /** rowFillPattern (pattern.go:29-49): one pattern per row, top to bottom. */
  method RowFillPattern(nono: N.Nonogram) returns (p: seq<seq<int>>)
    requires nono.Valid() && nono.n == nono.m && nono.n >= 0
    ensures p == RowPatterns(nono.Picture())
  {
    p := seq(nono.n, _ => []);
    for row := 0 to nono.n
      invariant |p| == nono.n
      invariant forall r :: 0 <= r < row ==> p[r] == Pattern(nono.Picture()[r])
    {
      var runs := RowFillLine(nono, row);
      p := p[row := runs];
    }
  }

  /** columnFillPattern (pattern.go:51-72): one pattern per column, left to right. */
  method ColumnFillPattern(nono: N.Nonogram) returns (p: seq<seq<int>>)
    requires nono.Valid() && nono.n == nono.m && nono.n >= 0
    ensures p == ColumnPatterns(nono.Picture())
  {
    p := seq(nono.m, _ => []);
    for column := 0 to nono.m
      invariant |p| == nono.m
      invariant forall c :: 0 <= c < column ==> p[c] == Pattern(PictureColumn(nono.Picture(), c))
    {
      var runs := ColumnFillLine(nono, column);
      p := p[column := runs];
    }
  }

  /** FillPatterns (pattern.go:24-27): the row patterns and the column patterns. */
  method FillPatterns(nono: N.Nonogram) returns (rows: seq<seq<int>>, columns: seq<seq<int>>)
    requires nono.Valid() && nono.n == nono.m && nono.n >= 0
    ensures rows == RowPatterns(nono.Picture()) && columns == ColumnPatterns(nono.Picture())
  {
    rows := RowFillPattern(nono);
    columns := ColumnFillPattern(nono);
  }

  // ---------------------------------------------------------------------
  // The patterns of a picture describe a puzzle that the picture solves.
  // ---------------------------------------------------------------------

  /** A line of a finished picture as solver cells: Filled for a set cell, Blank for a clear one. */
  function LineCells(s: seq<bool>): (l: seq<State>)
    ensures |l| == |s| && forall k :: 0 <= k < |s| ==> l[k] == if s[k] then Filled else Blank
  {
    seq(|s|, k requires 0 <= k < |s| => if s[k] then Filled else Blank)
  }

  /** A picture as a grid of solver cells. */
  function PictureCells(pic: seq<seq<bool>>): (g: Cells)
    ensures |g| == |pic| && forall r :: 0 <= r < |pic| ==> g[r] == LineCells(pic[r])
  {
    seq(|pic|, r requires 0 <= r < |pic| => LineCells(pic[r]))
  }

  /** The pattern of a line holds no negative length. */
  lemma PatternNonNegative(s: seq<bool>)
    ensures NonNegative(Pattern(s))
  {
    PatternShape(s);
    forall i | 0 <= i < |Pattern(s)|
      ensures Pattern(s)[i] >= 0
    {
      assert Pattern(s)[i] in Pattern(s);
    }
  }

  /** fillWith of the line's own pattern at PatternStarts paints the line back. */
  lemma PatternPaintsLine(s: seq<bool>)
    ensures IsPlacement(|s|, Pattern(s), PatternStarts(s))
    ensures Painted(|s|, PatternStarts(s), Pattern(s)) == LineCells(s)
  {
    PatternPlacesLine(s);
    var cover := Cover(|s|, PatternStarts(s), Pattern(s));
    var painted := Painted(|s|, PatternStarts(s), Pattern(s));
    forall k | 0 <= k < |s|
      ensures painted[k] == LineCells(s)[k]
    {
      assert cover[k] == s[k];
    }
  }

  /** Every line is painted by a placement of its own pattern, and that pattern has no negative length. */
  lemma LinePatternSatisfied(s: seq<bool>)
    ensures NonNegative(Pattern(s))
    ensures LineSatisfies(LineCells(s), Pattern(s))
  {
    PatternNonNegative(s);
    PatternPaintsLine(s);
  }

  /**
   * The patterns that pattern.go derives from a square picture describe a
   * puzzle that the picture solves, so the solver, started from a grid of
   * Unknown cells, solves them: it returns a nil error and a grid that is a
   * solution of the patterns.
   */
  lemma PatternsSolvable(pic: seq<seq<bool>>)
    requires forall r :: 0 <= r < |pic| ==> |pic[r]| == |pic|
    ensures AllNonNegative(RowPatterns(pic)) && AllNonNegative(ColumnPatterns(pic))
    ensures Shaped(PictureCells(pic), RowPatterns(pic), ColumnPatterns(pic))
    ensures Satisfies(PictureCells(pic), RowPatterns(pic), ColumnPatterns(pic))
    ensures SolveSpec(S.AllUnknown(|pic|), RowPatterns(pic), ColumnPatterns(pic)).status == Ok
    ensures Satisfies(SolveSpec(S.AllUnknown(|pic|), RowPatterns(pic), ColumnPatterns(pic)).grid, RowPatterns(pic), ColumnPatterns(pic))
  {
    var n := |pic|;
    var g := PictureCells(pic);
    var rows, cols := RowPatterns(pic), ColumnPatterns(pic);
    forall r | 0 <= r < n
      ensures NonNegative(rows[r]) && LineSatisfies(g[r], rows[r])
    {
      LinePatternSatisfied(pic[r]);
    }
    forall c | 0 <= c < n
      ensures NonNegative(cols[c]) && LineSatisfies(Column(g, c), cols[c])
    {
      LinePatternSatisfied(PictureColumn(pic, c));
      assert Column(g, c) == LineCells(PictureColumn(pic, c));
    }
    var u := S.AllUnknown(n);
    assert GridRefines(u, g);
    SolveComplete(u, rows, cols, g);
    SolveSound(u, rows, cols);
  }
}
