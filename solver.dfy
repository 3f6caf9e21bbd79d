/**
 * The Solver of solver.go: a working grid of tri-state cells that the
 * solver updates in place. Every method is proved against the functions of
 * module Grid, so the properties proved there (soundness of a nil error,
 * no contradiction while a solution exists) carry over to the methods.
 *
 * The grid is a two-dimensional array; the ghost field `cells` mirrors it
 * as a sequence of rows.
 */
module Solver {
  import opened Wrappers
  import opened Placement
  import opened Line
  import opened Grid
  import V = Variant
  import L = Layout
  import N = Nonogram

  /** The fresh grid of Solve: every cell Unknown. */
  function AllUnknown(n: nat): (g: Cells)
    ensures Square(g, n)
    ensures forall i, j :: 0 <= i < n && 0 <= j < n ==> g[i][j] == Unknown
  {
    seq(n, _ => seq(n, _ => Unknown))
  }

  /** The glyph toString writes for a cell. */
  function Glyph(c: State, fill: char, empty: char, unknown: char): char
  {
    match c
    case Filled => fill
    case Blank => empty
    case Unknown => unknown
  }

  /** The glyphs toString writes for a grid of cells, row by row. */
  function Glyphs(g: Cells, fill: char, empty: char, unknown: char): (r: seq<seq<char>>)
    ensures |r| == |g| && forall i :: 0 <= i < |g| ==> |r[i]| == |g[i]|
    ensures forall i, j :: 0 <= i < |g| && 0 <= j < |g[i]| ==> r[i][j] == Glyph(g[i][j], fill, empty, unknown)
  {
    seq(|g|, i requires 0 <= i < |g| => seq(|g[i]|, j requires 0 <= j < |g[i]| => Glyph(g[i][j], fill, empty, unknown)))
  }

  /**
   * With three distinct glyphs and no cage, line i of the text of an n × n
   * grid shows cell (i, j) at rune j, and the cell can be read back from it.
   */
  lemma PlainTextShowsCell(g: Cells, n: nat, fill: char, empty: char, unknown: char, i: nat, j: nat)
    requires Square(g, n) && i < n && j < n
    requires fill != empty && fill != unknown && empty != unknown
    ensures L.LineStart(i, n) + n < |L.Render(Glyphs(g, fill, empty, unknown), n, 0, n)|
    ensures var c := L.Render(Glyphs(g, fill, empty, unknown), n, 0, n)[L.LineStart(i, n) + j];
      (c == fill <==> g[i][j] == Filled) && (c == empty <==> g[i][j] == Blank) && (c == unknown <==> g[i][j] == Unknown)
    ensures L.Render(Glyphs(g, fill, empty, unknown), n, 0, n)[L.LineStart(i, n) + n] == '\n'
  {
    var gl := Glyphs(g, fill, empty, unknown);
    assert forall r :: 0 <= r < |gl| ==> |gl[r]| == n;
    L.PlainRenderAt(gl, n, n, i, j);
    L.PlainRenderAt(gl, n, n, i, n);
  }

  /** The picture ToNonogram paints: a cell is set exactly when it is Filled. */
  function FilledPicture(g: Cells): (pic: seq<seq<bool>>)
    ensures |pic| == |g| && forall i :: 0 <= i < |g| ==> |pic[i]| == |g[i]|
    ensures forall i, j :: 0 <= i < |g| && 0 <= j < |g[i]| ==> (pic[i][j] <==> g[i][j] == Filled)
  {
    seq(|g|, i requires 0 <= i < |g| => seq(|g[i]|, j requires 0 <= j < |g[i]| => g[i][j] == Filled))
  }

  /**
   * fillWith (solver.go:205-214): blanks the line, then fills the cells of
   * every block at its start. The requires is what keeps every write inside
   * the line.
   */
  method FillWith(arr: array<State>, start: seq<int>, block: seq<int>)
    requires |start| <= |block|
    requires forall i :: 0 <= i < |start| ==> block[i] <= 0 || (0 <= start[i] && start[i] + block[i] <= arr.Length)
    modifies arr
    ensures arr[..] == Painted(arr.Length, start, block)
  {
    for i := 0 to arr.Length
      invariant forall k :: 0 <= k < i ==> arr[k] == Blank
    {
      arr[i] := Blank;
    }
    assert start[..0] == [];
    for i := 0 to |start|
      invariant forall k :: 0 <= k < arr.Length ==> arr[k] == if Covered(start[..i], block, k) then Filled else Blank
    {
      var j := 0;
      while j < block[i]
        invariant 0 <= j && (block[i] > 0 ==> j <= block[i]) && (block[i] <= 0 ==> j == 0)
        invariant forall k :: 0 <= k < arr.Length ==>
          arr[k] == if Covered(start[..i], block, k) || (start[i] <= k < start[i] + j) then Filled else Blank
      {
        arr[start[i] + j] := Filled;
        j := j + 1;
      }
      forall k | 0 <= k < arr.Length
        ensures arr[k] == if Covered(start[..i + 1], block, k) then Filled else Blank
      {
        CoveredSnoc(start, block, i, k);
      }
    }
    assert start[..|start|] == start;
  }

  /** The counting loop of tryRows (solver.go:128-132): one more for every filled cell of the line. */
  method AddFills(fills: array<int>, line: array<State>)
    requires fills.Length == line.Length
    modifies fills
    ensures forall c :: 0 <= c < fills.Length ==> fills[c] == old(fills[c]) + (if line[c] == Filled then 1 else 0)
  {
    for i := 0 to fills.Length
      invariant forall c :: 0 <= c < i ==> fills[c] == old(fills[c]) + (if line[c] == Filled then 1 else 0)
      invariant forall c :: i <= c < fills.Length ==> fills[c] == old(fills[c])
    {
      if line[i] == Filled {
        fills[i] := fills[i] + 1;
      }
    }
  }

  /** copySolver (solver.go:337-357): a new solver with its own copy of the grid. */
  method CopySolver(s: Solver) returns (t: Solver)
    requires s.Valid()
    ensures fresh(t) && fresh(t.grid) && t.Valid()
    ensures t.n == s.n && t.m == s.m && t.rows == s.rows && t.columns == s.columns && t.cells == s.cells
  {
    var a := new State[s.n, s.m];
    for i := 0 to s.n
      invariant forall i1, j1 :: 0 <= i1 < i && 0 <= j1 < s.m ==> a[i1, j1] == s.grid[i1, j1]
    {
      for j := 0 to s.m
        invariant forall i1, j1 :: 0 <= i1 < i && 0 <= j1 < s.m ==> a[i1, j1] == s.grid[i1, j1]
        invariant forall j1 :: 0 <= j1 < j ==> a[i, j1] == s.grid[i, j1]
      {
        a[i, j] := s.grid[i, j];
      }
    }
    t := new Solver();
    t.n, t.m, t.rows, t.columns := s.n, s.m, s.rows, s.columns;
    t.grid := a;
    t.cells := s.cells;
  }

  /**
   * The counting loop for a suitable placement p, painted in `line`: the
   * fill counts of the survivors so far become those with p added.
   */
  method CountPlacement(fills: array<int>, line: array<State>, ghost block: seq<int>, ghost surv: seq<seq<int>>, ghost p: seq<int>)
    requires fills.Length == line.Length && Sized(surv, block) && |p| == |block|
    requires line[..] == Painted(line.Length, p, block)
    requires forall c :: 0 <= c < fills.Length ==> fills[c] == FillCount(block, surv, c)
    modifies fills
    ensures Sized(surv + [p], block)
    ensures forall c :: 0 <= c < fills.Length ==> fills[c] == FillCount(block, surv + [p], c)
  {
    AddFills(fills, line);
    forall c | 0 <= c < fills.Length
      ensures fills[c] == FillCount(block, surv + [p], c)
    {
      FillCountSnoc(block, surv, p, c);
    }
  }

  /** The copy of tryToGuess (solver.go:83-84): a copy of s with cell (i, j) set Filled. */
  method CopyFilled(s: Solver, i: int, j: int) returns (t: Solver)
    requires s.Valid() && 0 <= i < s.n && 0 <= j < s.m
    ensures fresh(t) && fresh(t.grid) && t.Valid()
    ensures t.n == s.n && t.m == s.m && t.rows == s.rows && t.columns == s.columns
    ensures t.cells == s.cells[i := s.cells[i][j := Filled]]
  {
    t := CopySolver(s);
    t.grid[i, j] := Filled;
    t.cells := t.cells[i := t.cells[i][j := Filled]];
  }

  /** One cell of the update loop of tryColumns: rows up to `row` now hold their target in column c. */
  lemma ColumnCellStep(start: Cells, before: Cells, after: Cells, c: nat, row: nat, target: seq<State>)
    requires |before| == |start| && |target| == |start| && row < |start|
    requires forall i :: 0 <= i < |start| ==> c < |start[i]|
    requires forall i :: 0 <= i < |start| ==> before[i] == if i < row then start[i][c := target[i]] else start[i]
    requires after == before[row := before[row][c := target[row]]]
    ensures forall i :: 0 <= i < |start| ==> after[i] == if i <= row then start[i][c := target[i]] else start[i]
  {
  }

  /** One cell of the ToNonogram loop: the picture is set at the Filled cells up to and including (i, j). */
  lemma PaintStep(before: seq<seq<bool>>, after: seq<seq<bool>>, g: Cells, n: nat, i: nat, j: nat)
    requires Square(g, n) && i < n && j < n
    requires |before| == n && forall a :: 0 <= a < n ==> |before[a]| == n
    requires forall a, b :: 0 <= a < n && 0 <= b < n ==> before[a][b] == ((a < i || (a == i && b < j)) && g[a][b] == Filled)
    requires after == if g[i][j] == Filled then before[i := before[i][j := true]] else before
    ensures forall a, b :: 0 <= a < n && 0 <= b < n ==> after[a][b] == ((a < i || (a == i && b <= j)) && g[a][b] == Filled)
  {
  }

  /** Column c replaced by its line pass: the other columns stay, and the changes add up since `start`. */
  lemma ColumnApplied(start: Cells, before: Cells, after: Cells, cols: seq<seq<int>>, c: nat, changes: int, columnChanges: int)
    requires Square(before, |before|) && |cols| == |before| && c < |before|
    requires Counted(start, before, changes)
    requires LinePass(Column(before, c), cols[c]).Some?
    requires after == SetColumn(before, c, LinePass(Column(before, c), cols[c]).value)
    requires GridRefines(before, after) && columnChanges == Diff(before, after)
    ensures LinePass(Column(before, c), cols[c]) == Some(Column(after, c))
    ensures forall j :: 0 <= j < |before| && j != c ==> Column(after, j) == Column(before, j)
    ensures Counted(start, after, changes + columnChanges)
  {
    LinePassShape(Column(before, c), cols[c]);
    SetColumnColumns(before, c, LinePass(Column(before, c), cols[c]).value);
    DiffTrans(start, before, after);
    RefinesTrans(start, before, after);
  }

  /** One column of the tryColumns loop keeps the loop's picture of the columns passed so far and those still ahead. */
  lemma ColumnLoopStep(start: Cells, before: Cells, after: Cells, cols: seq<seq<int>>, c: nat)
    requires Square(start, |start|) && Square(before, |start|) && Square(after, |start|)
    requires |cols| == |start| && c < |start|
    requires forall j :: 0 <= j < c ==> LinePass(Column(start, j), cols[j]) == Some(Column(before, j))
    requires forall j :: c <= j < |start| ==> Column(before, j) == Column(start, j)
    requires LinePass(Column(before, c), cols[c]) == Some(Column(after, c))
    requires forall j :: 0 <= j < |start| && j != c ==> Column(after, j) == Column(before, j)
    ensures forall j :: 0 <= j <= c ==> LinePass(Column(start, j), cols[j]) == Some(Column(after, j))
    ensures forall j :: c < j < |start| ==> Column(after, j) == Column(start, j)
  {
  }

  class Solver {
    var n: int
    var m: int
    var grid: array2<State>
    /** The grid as a sequence of rows. */
    ghost var cells: Cells
    var rows: seq<seq<int>>
    var columns: seq<seq<int>>

    ghost predicate Valid()
      reads this, grid
    {
      && n == m && grid.Length0 == n && grid.Length1 == m
      && |rows| == n && |columns| == m
      && AllNonNegative(rows) && AllNonNegative(columns)
      && Square(cells, n)
      && forall i, j :: 0 <= i < n && 0 <= j < m ==> grid[i, j] == cells[i][j]
    }

    /** The zero value `Solver{}`. */
    constructor ()
      ensures Valid() && n == 0 && cells == []
    {
      n, m := 0, 0;
      grid := new State[0, 0];
      cells := [];
      rows, columns := [], [];
    }

    /**
     * Solve (solver.go:31-46): a missing pattern is an error; otherwise a
     * grid of Unknown cells is made and solved. A nil error leaves a
     * solution of the patterns, and a puzzle that has a solution never
     * gives a contradiction.
     */
    method Solve(rows0: Option<seq<seq<int>>>, columns0: Option<seq<seq<int>>>) returns (err: Status)
      requires rows0.Some? && columns0.Some? ==>
        |rows0.value| == |columns0.value| && AllNonNegative(rows0.value) && AllNonNegative(columns0.value)
      modifies this
      ensures rows0.None? || columns0.None? ==> err == NilPattern && unchanged(this)
      ensures rows0.Some? && columns0.Some? ==>
        && Valid() && fresh(grid)
        && n == |rows0.value| && rows == rows0.value && columns == columns0.value
        && Outcome(err, cells) == SolveSpec(AllUnknown(n), rows, columns)
        && (err == Ok ==> Satisfies(cells, rows, columns))
        && ((exists s :: Shaped(s, rows, columns) && Satisfies(s, rows, columns)) ==> err == Ok)
    {
      if rows0.None? || columns0.None? {
        return NilPattern;
      }
      n := |rows0.value|;
      m := |columns0.value|;
      rows := rows0.value;
      columns := columns0.value;
      grid := new State[n, m]((_, _) => Unknown);
      cells := AllUnknown(n);
      err := SolveCurrent();
      SolveSound(AllUnknown(n), rows, columns);
      if s :| Shaped(s, rows, columns) && Satisfies(s, rows, columns) {
        SolveComplete(AllUnknown(n), rows, columns, s);
      }
    }

    /**
     * solve (solver.go:48-72): row and column passes until neither changes
     * a cell, then isSolved, and tryToGuess when cells remain Unknown.
     */
    method SolveCurrent() returns (err: Status)
      requires Valid()
      modifies this`cells, grid
      ensures Valid()
      ensures Outcome(err, cells) == SolveSpec(old(cells), rows, columns)
      decreases Unknowns(cells), 4
    {
      ghost var spec := SolveSpec(cells, rows, columns);
      var finished := false;
      err := Ok;
      while !finished
        invariant Valid()
        invariant Unknowns(cells) <= Unknowns(old(cells))
        invariant !finished ==> SolveSpec(cells, rows, columns) == spec
        invariant finished ==> Outcome(err, cells) == spec
        decreases !finished, Unknowns(cells)
      {
        err, finished := Round();
      }
    }

    /**
     * One round of the loop of solve (solver.go:50-70): a row pass and a
     * column pass; the solve ends on a contradiction, or when neither pass
     * changed a cell, with isSolved or tryToGuess. A round that goes on
     * leaves fewer Unknown cells and the same outcome to come.
     */
    method Round() returns (err: Status, finished: bool)
      requires Valid()
      modifies this`cells, grid
      ensures Valid()
      ensures finished ==> Unknowns(cells) <= Unknowns(old(cells))
      ensures finished ==> Outcome(err, cells) == SolveSpec(old(cells), rows, columns)
      ensures !finished ==> Unknowns(cells) < Unknowns(old(cells))
      ensures !finished ==> SolveSpec(cells, rows, columns) == SolveSpec(old(cells), rows, columns)
      decreases Unknowns(cells), 3
    {
      ghost var g := cells;
      SolveStep(g, rows, columns);
      var rowChanges, rowErr := TryRows();
      ghost var g1 := cells;
      UnknownsSplit(g, g1);
      if rowErr != Ok {
        return rowErr, true;
      }
      var columnChanges, columnErr := TryColumns();
      UnknownsSplit(g1, cells);
      if columnErr != Ok {
        return columnErr, true;
      }
      finished := rowChanges == 0 && columnChanges == 0;
      if finished {
        var solved := IsSolved();
        if solved {
          err := Ok;
        } else {
          ghost var g2 := cells;
          var guessed := TryToGuess();
          UnknownsSplit(g2, cells);
          err := if guessed then Ok else CanNotSolve;
        }
      } else {
        err := Ok;
      }
    }

    /**
     * tryToGuess (solver.go:76-100): for each Unknown cell in row-major
     * order, a copy of the solver with that cell Filled is solved; the first
     * copy solved without error is copied back and isSolved is returned.
     */
    method TryToGuess() returns (found: bool)
      requires Valid()
      modifies this`cells, grid
      ensures Valid()
      ensures Guess(found, cells) == GuessFrom(old(cells), rows, columns, 0, 0)
      decreases Unknowns(cells), 2
    {
      ghost var g := cells;
      for i := 0 to n
        invariant Valid() && cells == g
        invariant GuessFrom(g, rows, columns, 0, 0) == GuessFrom(g, rows, columns, i, 0)
      {
        for j := 0 to m
          invariant Valid() && cells == g
          invariant GuessFrom(g, rows, columns, 0, 0) == GuessFrom(g, rows, columns, i, j)
        {
          var done;
          done, found := GuessCell(i, j);
          if done {
            return;
          }
        }
        assert GuessFrom(g, rows, columns, i, m) == GuessFrom(g, rows, columns, i + 1, 0);
      }
      assert GuessFrom(g, rows, columns, n, 0) == Guess(false, g);
      found := false;
    }

    /**
     * The body of tryToGuess for cell (i, j) (solver.go:79-95): an Unknown
     * cell is set Filled in a copy of the solver, and when the copy solves
     * without error its grid is copied back and `done` is set.
     */
    method GuessCell(i: int, j: int) returns (done: bool, found: bool)
      requires Valid() && 0 <= i < n && 0 <= j < m
      modifies this`cells, grid
      ensures Valid()
      ensures !done ==> cells == old(cells)
      ensures !done ==> GuessFrom(old(cells), rows, columns, i, j) == GuessFrom(old(cells), rows, columns, i, j + 1)
      ensures done ==> Guess(found, cells) == GuessFrom(old(cells), rows, columns, i, j)
      decreases Unknowns(cells), 1
    {
      if grid[i, j] != Unknown {
        return false, false;
      }
      GuessStep(cells, rows, columns, i, j);
      done, found := GuessUnknown(i, j);
    }

    /**
     * GuessCell at an Unknown cell: the copy with the cell Filled is solved,
     * and adopted exactly when it solves without error.
     */
    method GuessUnknown(i: int, j: int) returns (done: bool, found: bool)
      requires Valid() && 0 <= i < n && 0 <= j < m && cells[i][j] == Unknown
      modifies this`cells, grid
      ensures Valid()
      ensures var o := SolveSpec(old(cells)[i := old(cells)[i][j := Filled]], rows, columns);
        && (done <==> o.status == Ok)
        && (!done ==> cells == old(cells))
        && (done ==> cells == o.grid && found == Grid.IsSolved(cells))
      decreases Unknowns(cells), 0
    {
      ghost var g := cells;
      var t := CopyFilled(this, i, j);
      GuessDecreases(g, i, j);
      var solveErr := t.SolveCurrent();
      if solveErr != Ok {
        return false, false;
      }
      CopyBack(t);
      found := IsSolved();
      done := true;
    }

    /** The copy-back loop of tryToGuess (solver.go:89-93): this grid takes the cells of t. */
    method CopyBack(t: Solver)
      requires Valid() && t.Valid() && t.n == n && t.grid != grid
      modifies this`cells, grid
      ensures Valid() && cells == t.cells
    {
      for i1 := 0 to n
        invariant forall a, b :: 0 <= a < i1 && 0 <= b < m ==> grid[a, b] == t.cells[a][b]
      {
        for j1 := 0 to m
          invariant forall a, b :: 0 <= a < i1 && 0 <= b < m ==> grid[a, b] == t.cells[a][b]
          invariant forall b :: 0 <= b < j1 ==> grid[i1, b] == t.cells[i1][b]
        {
          grid[i1, j1] := t.grid[i1, j1];
        }
      }
      cells := t.cells;
    }

    /**
     * tryRows (solver.go:103-150): the line pass of every row in turn,
     * counting the cells it changes; a row with no suitable placement stops
     * the pass with ErrContradiction and a count of 0.
     */
    method TryRows() returns (changes: int, err: Status)
      requires Valid()
      modifies this`cells, grid
      ensures Valid()
      ensures Pass(cells, err == Ok) == RowPassFrom(old(cells), rows, 0)
      ensures err == Ok || err == Contradiction
      ensures GridRefines(old(cells), cells)
      ensures changes == if err == Ok then Diff(old(cells), cells) else 0
    {
      changes := 0;
      var row := new State[n];
      ghost var start := cells;
      RefinesRefl(start);
      DiffZero(start, start);
      for rowIdx := 0 to n
        invariant Valid()
        invariant forall i :: 0 <= i < rowIdx ==> LinePass(start[i], rows[i]) == Some(cells[i])
        invariant forall i :: rowIdx <= i < n ==> cells[i] == start[i]
        invariant Counted(start, cells, changes)
      {
        var rowChanges, ok := TryRow(rowIdx, row, start, changes);
        if !ok {
          RowPassReaches(start, cells, rows, rowIdx);
          RowPassStep(cells, rows, rowIdx);
          return 0, Contradiction;
        }
        changes := changes + rowChanges;
      }
      RowPassReaches(start, cells, rows, n);
      PassesDone(cells, rows, columns);
      err := Ok;
    }

    /**
     * tryColumns (solver.go:153-200): the same pass over the columns.
     */
    method TryColumns() returns (changes: int, err: Status)
      requires Valid()
      modifies this`cells, grid
      ensures Valid()
      ensures Pass(cells, err == Ok) == ColumnPassFrom(old(cells), columns, 0)
      ensures err == Ok || err == Contradiction
      ensures GridRefines(old(cells), cells)
      ensures changes == if err == Ok then Diff(old(cells), cells) else 0
    {
      changes := 0;
      var column := new State[m];
      ghost var start := cells;
      RefinesRefl(start);
      DiffZero(start, start);
      for columnIdx := 0 to m
        invariant Valid()
        invariant forall j :: 0 <= j < columnIdx ==> LinePass(Column(start, j), columns[j]) == Some(Column(cells, j))
        invariant forall j :: columnIdx <= j < m ==> Column(cells, j) == Column(start, j)
        invariant Counted(start, cells, changes)
      {
        ghost var before := cells;
        var columnChanges, ok := TryColumn(columnIdx, column, start, changes);
        if !ok {
          ColumnPassReaches(start, cells, columns, columnIdx);
          ColumnPassStep(cells, columns, columnIdx);
          return 0, Contradiction;
        }
        ColumnLoopStep(start, before, cells, columns, columnIdx);
        changes := changes + columnChanges;
      }
      ColumnPassReaches(start, cells, columns, m);
      PassesDone(cells, rows, columns);
      err := Ok;
    }

    /**
     * One placement offered to row r (solver.go:113-121): the row buffer is
     * painted with it, and the result says whether it agrees with the row.
     */
    method OfferRow(r: int, row: array<State>, p: seq<int>) returns (suitable: bool)
      requires Valid() && 0 <= r < n && row.Length == n && IsPlacement(n, rows[r], p)
      modifies row
      ensures row[..] == Painted(n, p, rows[r])
      ensures suitable == Suitable(cells[r], Painted(n, p, rows[r]))
    {
      PlacementInBounds(n, rows[r], p);
      FillWith(row, p, rows[r]);
      suitable := RowSuitable(r, row);
    }

    /** One placement offered to column c (solver.go:163-171). */
    method OfferColumn(c: int, column: array<State>, p: seq<int>) returns (suitable: bool)
      requires Valid() && 0 <= c < m && column.Length == m && IsPlacement(m, columns[c], p)
      modifies column
      ensures column[..] == Painted(m, p, columns[c])
      ensures suitable == Suitable(Column(cells, c), Painted(m, p, columns[c]))
    {
      PlacementInBounds(m, columns[c], p);
      FillWith(column, p, columns[c]);
      suitable := ColumnSuitable(c, column);
    }

    /** The suitability loop of tryRows (solver.go:115-121). */
    method RowSuitable(r: int, row: array<State>) returns (ok: bool)
      requires Valid() && 0 <= r < n && row.Length == n
      ensures ok == Suitable(cells[r], row[..])
    {
      ok := true;
      for column := 0 to m
        invariant forall c :: 0 <= c < column ==> IsPossible(cells[r][c], row[c])
      {
        if !IsPossible(grid[r, column], row[column]) {
          ok := false;
          break;
        }
      }
    }

    /** The suitability loop of tryColumns (solver.go:165-171). */
    method ColumnSuitable(c: int, column: array<State>) returns (ok: bool)
      requires Valid() && 0 <= c < m && column.Length == m
      ensures ok == Suitable(Column(cells, c), column[..])
    {
      ok := true;
      for row := 0 to n
        invariant forall i :: 0 <= i < row ==> IsPossible(cells[i][c], column[i])
      {
        if !IsPossible(grid[row, c], column[row]) {
          ok := false;
          break;
        }
      }
    }

    /**
     * The placement loop of tryRows for one row (solver.go:108-133): the
     * number of placements that suit the row and, per cell, how many of
     * them fill it.
     */
    method SurveyRow(r: int, row: array<State>) returns (fills: array<int>, count: int)
      requires Valid() && 0 <= r < n && row.Length == n
      modifies row
      ensures fresh(fills) && fills.Length == n
      ensures count == |LineSurvivors(cells[r], rows[r])|
      ensures forall c :: 0 <= c < n ==> fills[c] == FillCount(rows[r], LineSurvivors(cells[r], rows[r]), c)
    {
      ghost var line := cells[r];
      var block := rows[r];
      var v := new V.Variant();
      var ch := v.Provide(n, block);
      PlacementsSized(n, block);
      fills := new int[n](_ => 0);
      count := 0;
      ghost var surv: seq<seq<int>> := [];
      for t := 0 to |ch|
        invariant Sized(ch[..t], block) && surv == Survivors(line, block, ch[..t])
        invariant count == |surv|
        invariant forall c :: 0 <= c < n ==> fills[c] == FillCount(block, surv, c)
      {
        PlacementAt(n, block, t);
        var suitable := OfferRow(r, row, ch[t]);
        SurvivorsStep(line, block, ch, t);
        if suitable {
          count := count + 1;
          CountPlacement(fills, row, block, surv, ch[t]);
          surv := surv + [ch[t]];
        }
      }
      assert ch[..|ch|] == ch;
    }

    /** The placement loop of tryColumns for one column (solver.go:158-183). */
    method SurveyColumn(c: int, column: array<State>) returns (fills: array<int>, count: int)
      requires Valid() && 0 <= c < m && column.Length == m
      modifies column
      ensures fresh(fills) && fills.Length == m
      ensures count == |LineSurvivors(Column(cells, c), columns[c])|
      ensures forall i :: 0 <= i < m ==> fills[i] == FillCount(columns[c], LineSurvivors(Column(cells, c), columns[c]), i)
    {
      ghost var line := Column(cells, c);
      var block := columns[c];
      var v := new V.Variant();
      var ch := v.Provide(m, block);
      PlacementsSized(m, block);
      fills := new int[m](_ => 0);
      count := 0;
      ghost var surv: seq<seq<int>> := [];
      for t := 0 to |ch|
        invariant Sized(ch[..t], block) && surv == Survivors(line, block, ch[..t])
        invariant count == |surv|
        invariant forall i :: 0 <= i < m ==> fills[i] == FillCount(block, surv, i)
      {
        PlacementAt(m, block, t);
        var suitable := OfferColumn(c, column, ch[t]);
        SurvivorsStep(line, block, ch, t);
        if suitable {
          count := count + 1;
          CountPlacement(fills, column, block, surv, ch[t]);
          surv := surv + [ch[t]];
        }
      }
      assert ch[..|ch|] == ch;
    }

    /**
     * One row of tryRows (solver.go:108-147): a contradiction when no
     * placement suits the row; otherwise the row becomes its line pass, and
     * the number of cells changed is returned: the changes counted since any
     * earlier grid `start` grow by it.
     */
    method TryRow(r: int, row: array<State>, ghost start: Cells, ghost changes: int) returns (rowChanges: int, ok: bool)
      requires Valid() && 0 <= r < n && row.Length == n && Counted(start, cells, changes)
      modifies this`cells, grid, row
      ensures Valid()
      ensures ok <==> LinePass(old(cells)[r], rows[r]).Some?
      ensures ok ==> cells == old(cells)[r := LinePass(old(cells)[r], rows[r]).value]
      ensures !ok ==> cells == old(cells)
      ensures ok ==> Counted(start, cells, changes + rowChanges)
    {
      var fills, count := SurveyRow(r, row);
      LinePassValue(cells[r], rows[r]);
      if count == 0 {
        return 0, false;
      }
      LinePassShape(cells[r], rows[r]);
      ghost var before := cells;
      rowChanges := ApplyRow(r, fills, count, LinePass(cells[r], rows[r]).value);
      DiffTrans(start, before, cells);
      RefinesTrans(start, before, cells);
      ok := true;
    }

    /**
     * The body of the update loops of tryRows and tryColumns
     * (solver.go:140-146, 190-196): an Unknown cell becomes Filled when
     * every one of the `count` suitable placements fills it and Blank when
     * none does; the result is the number of cells changed, and the changes
     * counted since any earlier grid `start` grow by it.
     */
    method DecideCell(i: int, j: int, fills: int, count: int, ghost start: Cells) returns (changed: int)
      requires Valid() && 0 <= i < n && 0 <= j < m && GridRefines(start, cells)
      modifies this`cells, grid
      ensures Valid()
      ensures cells == old(cells)[i := old(cells)[i][j := Decide(old(cells)[i][j], fills, count)]]
      ensures GridRefines(start, cells) && SameShape(start, cells)
      ensures Diff(start, cells) == Diff(start, old(cells)) + changed
    {
      UnknownsSplit(start, cells);
      changed := 0;
      if fills == count && grid[i, j] == Unknown {
        DecideCellStep(start, cells, i, j, Filled);
        grid[i, j] := Filled;
        cells := cells[i := cells[i][j := Filled]];
        changed := 1;
      } else if fills == 0 && grid[i, j] == Unknown {
        DecideCellStep(start, cells, i, j, Blank);
        grid[i, j] := Blank;
        cells := cells[i := cells[i][j := Blank]];
        changed := 1;
      } else {
        assert cells[i][j := cells[i][j]] == cells[i];
        assert cells == cells[i := cells[i]];
      }
    }

    /** The update loop of tryRows (solver.go:139-147): each cell of row r takes its decided state. */
    method ApplyRow(r: int, fills: array<int>, count: int, ghost target: seq<State>) returns (rowChanges: int)
      requires Valid() && 0 <= r < n && fills.Length == n && |target| == n
      requires Refines(cells[r], target)
      requires forall c :: 0 <= c < n ==> target[c] == Decide(cells[r][c], fills[c], count)
      modifies this`cells, grid
      ensures Valid() && cells == old(cells)[r := target]
      ensures GridRefines(old(cells), cells) && rowChanges == Diff(old(cells), cells)
    {
      ghost var start := cells;
      RefinesRefl(start);
      DiffZero(start, start);
      rowChanges := 0;
      for c := 0 to n
        invariant Valid()
        invariant forall i :: 0 <= i < n && i != r ==> cells[i] == start[i]
        invariant forall j :: 0 <= j < n ==> cells[r][j] == if j < c then target[j] else start[r][j]
        invariant GridRefines(start, cells)
        invariant SameShape(start, cells) && rowChanges == Diff(start, cells)
      {
        var changed := DecideCell(r, c, fills[c], count, start);
        rowChanges := rowChanges + changed;
      }
      assert cells[r] == target;
      assert cells == start[r := target];
    }

    /** One column of tryColumns (solver.go:158-197). */
    method TryColumn(c: int, column: array<State>, ghost start: Cells, ghost changes: int) returns (columnChanges: int, ok: bool)
      requires Valid() && 0 <= c < m && column.Length == m && Counted(start, cells, changes)
      modifies this`cells, grid, column
      ensures Valid()
      ensures ok <==> LinePass(Column(old(cells), c), columns[c]).Some?
      ensures ok ==> LinePass(Column(old(cells), c), columns[c]) == Some(Column(cells, c))
      ensures ok ==> forall j :: 0 <= j < m && j != c ==> Column(cells, j) == Column(old(cells), j)
      ensures !ok ==> cells == old(cells)
      ensures ok ==> Counted(start, cells, changes + columnChanges)
    {
      var fills, count := SurveyColumn(c, column);
      LinePassValue(Column(cells, c), columns[c]);
      if count == 0 {
        return 0, false;
      }
      LinePassShape(Column(cells, c), columns[c]);
      ghost var before := cells;
      columnChanges := ApplyColumn(c, fills, count, LinePass(Column(cells, c), columns[c]).value);
      ColumnApplied(start, before, cells, columns, c, changes, columnChanges);
      ok := true;
    }

    /** The update loop of tryColumns (solver.go:189-197): each cell of column c takes its decided state. */
    method ApplyColumn(c: int, fills: array<int>, count: int, ghost target: seq<State>) returns (columnChanges: int)
      requires Valid() && 0 <= c < m && fills.Length == m && |target| == m
      requires Refines(Column(cells, c), target)
      requires forall i :: 0 <= i < m ==> target[i] == Decide(cells[i][c], fills[i], count)
      modifies this`cells, grid
      ensures Valid() && cells == SetColumn(old(cells), c, target)
      ensures GridRefines(old(cells), cells) && columnChanges == Diff(old(cells), cells)
    {
      ghost var start := cells;
      RefinesRefl(start);
      DiffZero(start, start);
      columnChanges := 0;
      for row := 0 to n
        invariant Valid()
        invariant forall i :: 0 <= i < n ==> cells[i] == if i < row then start[i][c := target[i]] else start[i]
        invariant GridRefines(start, cells)
        invariant SameShape(start, cells) && columnChanges == Diff(start, cells)
      {
        ghost var before := cells;
        var changed := DecideCell(row, c, fills[row], count, start);
        ColumnCellStep(start, before, cells, c, row, target);
        columnChanges := columnChanges + changed;
      }
      assert cells == SetColumn(start, c, target);
    }

    /**
     * toString (solver.go:239-269): the cells row after row as fill, empty
     * or unknown, laid out with the cage as Layout.Render describes.
     */
    method ToString(fill: char, empty: char, unknown: char, cage: int) returns (s: string)
      requires Valid()
      ensures s == L.Render(Glyphs(cells, fill, empty, unknown), m, cage, n)
    {
      var b: string := [];
      ghost var gl := Glyphs(cells, fill, empty, unknown);
      for i := 0 to n
        invariant b == L.Render(gl, m, cage, i)
      {
        ghost var before := b;
        if L.CageBefore(cage, i) {
          b := L.WriteSeparator(b, cage, m);
        }
        assert b == before + L.Separator(cage, i, m);
        b := WriteRow(b, i, fill, empty, unknown, cage);
        assert |gl[i]| == m;
        b := b + ['\n'];
        assert L.Render(gl, m, cage, i + 1) == before + L.Separator(cage, i, m) + L.RowText(gl[i], cage, m) + ['\n'];
      }
      s := b;
    }

    /** The inner loop of toString (solver.go:253-265): appends the glyphs of row i to b. */
    method WriteRow(b0: string, i: nat, fill: char, empty: char, unknown: char, cage: int) returns (b: string)
      requires Valid() && i < n
      ensures b == b0 + L.RowText(Glyphs(cells, fill, empty, unknown)[i], cage, m)
    {
      b := b0;
      ghost var row := Glyphs(cells, fill, empty, unknown)[i];
      for j := 0 to m
        invariant b == b0 + L.RowText(row, cage, j)
      {
        if L.CageBefore(cage, j) {
          b := b + [L.Bar];
        }
        if grid[i, j] == Filled {
          b := b + [fill];
        } else if grid[i, j] == Blank {
          b := b + [empty];
        } else if grid[i, j] == Unknown {
          b := b + [unknown];
        }
        N.AppendPiece(b0, L.RowText(row, cage, j), if L.CageBefore(cage, j) then [L.Bar] else [], [row[j]]);
      }
    }

    /** String (solver.go:271-273): '#', 'x' and '.' for Filled, Blank and Unknown, no cage. */
    method String() returns (s: string)
      requires Valid()
      ensures s == L.Render(Glyphs(cells, '#', 'x', '.'), m, 0, n)
    {
      s := ToString('#', 'x', '.', 0);
    }

    /** PrettyString (solver.go:275-277): '█', '╳' and a space, no cage. */
    method PrettyString() returns (s: string)
      requires Valid()
      ensures s == L.Render(Glyphs(cells, '\U{2588}', '\U{2573}', ' '), m, 0, n)
    {
      s := ToString('\U{2588}', '\U{2573}', ' ', 0);
    }

    /** StringCaged (solver.go:279-281): String with a cage every `cage` rows and columns. */
    method StringCaged(cage: int) returns (s: string)
      requires Valid()
      ensures s == L.Render(Glyphs(cells, '#', 'x', '.'), m, cage, n)
    {
      s := ToString('#', 'x', '.', cage);
    }

    /** PrettyStringCaged (solver.go:283-285): PrettyString with a cage every `cage` rows and columns. */
    method PrettyStringCaged(cage: int) returns (s: string)
      requires Valid()
      ensures s == L.Render(Glyphs(cells, '\U{2588}', '\U{2573}', ' '), m, cage, n)
    {
      s := ToString('\U{2588}', '\U{2573}', ' ', cage);
    }

    /**
     * ToNonogram (solver.go:323-335): a new Nonogram of the same size in
     * which exactly the Filled cells are set.
     */
    method ToNonogram() returns (nono: N.Nonogram)
      requires Valid()
      ensures fresh(nono) && fresh(nono.grid) && nono.Valid() && nono.n == n && nono.m == m
      ensures nono.Picture() == FilledPicture(cells)
    {
      N.EncodedSizeSpec(n, m);
      nono := new N.Nonogram(n, m);
      for i := 0 to n
        invariant fresh(nono) && fresh(nono.grid) && nono.Valid() && nono.n == n && nono.m == n
        invariant forall a, b :: 0 <= a < n && 0 <= b < n ==> nono.Picture()[a][b] == (a < i && cells[a][b] == Filled)
      {
        PaintRow(nono, i);
      }
      ghost var pic := nono.Picture();
      ghost var want := FilledPicture(cells);
      forall a | 0 <= a < n
        ensures pic[a] == want[a]
      {
        assert |pic[a]| == |want[a]| == n;
        assert forall b :: 0 <= b < n ==> pic[a][b] == want[a][b];
      }
    }

    /** The inner loop of ToNonogram (solver.go:327-331): the Filled cells of row i are set in nono. */
    method PaintRow(nono: N.Nonogram, i: int)
      requires Valid() && nono.Valid() && nono.n == n && nono.m == n && 0 <= i < n
      requires forall a, b :: 0 <= a < n && 0 <= b < n ==> nono.Picture()[a][b] == (a < i && cells[a][b] == Filled)
      modifies nono.grid
      ensures nono.Valid()
      ensures forall a, b :: 0 <= a < n && 0 <= b < n ==> nono.Picture()[a][b] == (a <= i && cells[a][b] == Filled)
    {
      for j := 0 to m
        invariant nono.Valid()
        invariant forall a, b :: 0 <= a < n && 0 <= b < n ==>
          nono.Picture()[a][b] == ((a < i || (a == i && b < j)) && cells[a][b] == Filled)
      {
        ghost var before := nono.Picture();
        if grid[i, j] == Filled {
          N.SquareIndex(n, i, j);
          nono.Fill(i, j);
        }
        PaintStep(before, nono.Picture(), cells, n, i, j);
      }
    }

    /** isSolved (solver.go:227-237). */
    method IsSolved() returns (solved: bool)
      requires Valid()
      ensures solved == Grid.IsSolved(cells)
    {
      for i := 0 to n
        invariant forall a, b :: 0 <= a < i && 0 <= b < m ==> cells[a][b] != Unknown
      {
        for j := 0 to m
          invariant forall b :: 0 <= b < j ==> cells[i][b] != Unknown
        {
          if grid[i, j] == Unknown {
            return false;
          }
        }
      }
      return true;
    }
  }
}
