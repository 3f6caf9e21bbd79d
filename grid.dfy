/**
 * The solver of solver.go on values: the working grid as a sequence of
 * rows, one pass over all rows (tryRows), one pass over all columns
 * (tryColumns), the change counter, and the recursion of solve and
 * tryToGuess. The Solver class proves its methods against these functions.
 *
 * The source sizes its scratch lines by one dimension and loops over the
 * other, so the grid here is square (rows and columns equally many).
 */
module Grid {
  import opened Wrappers
  import opened Placement
  import opened Line

  type Cells = seq<seq<State>>

  ghost predicate Square(g: Cells, n: nat)
  {
    |g| == n && forall i :: 0 <= i < n ==> |g[i]| == n
  }

  /** Column j of the grid, top to bottom. */
  function Column(g: Cells, j: nat): (col: seq<State>)
    requires forall i :: 0 <= i < |g| ==> j < |g[i]|
    ensures |col| == |g| && forall i :: 0 <= i < |g| ==> col[i] == g[i][j]
  {
    seq(|g|, i requires 0 <= i < |g| => g[i][j])
  }

  /** The grid with column j replaced by col. */
  function SetColumn(g: Cells, j: nat, col: seq<State>): (h: Cells)
    requires forall i :: 0 <= i < |g| ==> j < |g[i]|
    requires |col| == |g|
    ensures |h| == |g|
    ensures forall i :: 0 <= i < |g| ==> h[i] == g[i][j := col[i]]
  {
    seq(|g|, i requires 0 <= i < |g| => g[i][j := col[i]])
  }

  /** h knows at least what g knows, cell by cell. */
  ghost predicate GridRefines(g: Cells, h: Cells)
  {
    |g| == |h| && forall i :: 0 <= i < |g| ==> Refines(g[i], h[i])
  }

  /** isSolved (solver.go:227-237): no cell is Unknown. */
  predicate IsSolved(g: Cells)
  {
    forall i, j :: 0 <= i < |g| && 0 <= j < |g[i]| ==> g[i][j] != Unknown
  }

  // ---------------------------------------------------------------------
  // Counting unknown and changed cells.
  // ---------------------------------------------------------------------

  function LineUnknowns(l: seq<State>): nat
  {
    if l == [] then 0 else LineUnknowns(l[..|l| - 1]) + (if l[|l| - 1] == Unknown then 1 else 0)
  }

  function Unknowns(g: Cells): nat
  {
    if g == [] then 0 else Unknowns(g[..|g| - 1]) + LineUnknowns(g[|g| - 1])
  }

  function LineDiff(a: seq<State>, b: seq<State>): nat
    requires |a| == |b|
  {
    if a == [] then 0
    else LineDiff(a[..|a| - 1], b[..|b| - 1]) + (if a[|a| - 1] != b[|b| - 1] then 1 else 0)
  }

  ghost predicate SameShape(g: Cells, h: Cells)
  {
    |g| == |h| && forall i :: 0 <= i < |g| ==> |g[i]| == |h[i]|
  }

  /** The number of cells in which two grids differ: what changesCount counts. */
  ghost function Diff(g: Cells, h: Cells): nat
    requires SameShape(g, h)
  {
    if g == [] then 0 else Diff(g[..|g| - 1], h[..|h| - 1]) + LineDiff(g[|g| - 1], h[|h| - 1])
  }

  /** g refines start, and `changes` cells differ between them. */
  ghost predicate Counted(start: Cells, g: Cells, changes: int)
  {
    GridRefines(start, g) && SameShape(start, g) && changes == Diff(start, g)
  }

  lemma {:induction false} LineSplit(a: seq<State>, b: seq<State>)
    requires Refines(a, b)
    ensures LineUnknowns(a) == LineUnknowns(b) + LineDiff(a, b)
  {
    if a != [] {
      LineSplit(a[..|a| - 1], b[..|b| - 1]);
    }
  }

  /** A refinement turns exactly the changed cells from Unknown into known ones. */
  lemma {:induction false} UnknownsSplit(g: Cells, h: Cells)
    requires GridRefines(g, h)
    ensures SameShape(g, h)
    ensures Unknowns(g) == Unknowns(h) + Diff(g, h)
  {
    if g != [] {
      var k := |g| - 1;
      assert GridRefines(g[..k], h[..k]);
      UnknownsSplit(g[..k], h[..k]);
      LineSplit(g[k], h[k]);
    }
  }

  lemma {:induction false} LineDiffZero(a: seq<State>, b: seq<State>)
    requires |a| == |b|
    ensures LineDiff(a, b) == 0 <==> a == b
  {
    if a != [] {
      var k := |a| - 1;
      LineDiffZero(a[..k], b[..k]);
      assert a == a[..k] + [a[k]] && b == b[..k] + [b[k]];
    }
  }

  /** A count of zero changes means the grid is unchanged, and conversely. */
  lemma {:induction false} DiffZero(g: Cells, h: Cells)
    requires SameShape(g, h)
    ensures Diff(g, h) == 0 <==> g == h
  {
    if g != [] {
      var k := |g| - 1;
      assert SameShape(g[..k], h[..k]);
      assert Diff(g, h) == Diff(g[..k], h[..k]) + LineDiff(g[k], h[k]);
      DiffZero(g[..k], h[..k]);
      LineDiffZero(g[k], h[k]);
      assert g == g[..k] + [g[k]] && h == h[..k] + [h[k]];
    }
  }

  lemma RefinesTrans(g: Cells, h: Cells, k: Cells)
    requires GridRefines(g, h) && GridRefines(h, k)
    ensures GridRefines(g, k)
  {
  }

  lemma RefinesRefl(g: Cells)
    ensures GridRefines(g, g)
  {
  }

  /** Changes add up along a chain of refinements. */
  lemma DiffTrans(g: Cells, h: Cells, k: Cells)
    requires GridRefines(g, h) && GridRefines(h, k)
    ensures SameShape(g, k)
    ensures Diff(g, k) == Diff(g, h) + Diff(h, k)
  {
    RefinesTrans(g, h, k);
    UnknownsSplit(g, h);
    UnknownsSplit(h, k);
    UnknownsSplit(g, k);
  }

  lemma {:induction false} LineDiffSet(a: seq<State>, j: nat, v: State)
    requires j < |a|
    ensures LineDiff(a, a[j := v]) == if a[j] == v then 0 else 1
  {
    var k := |a| - 1;
    var b := a[j := v];
    if j == k {
      assert b[..k] == a[..k];
      LineDiffZero(a[..k], b[..k]);
    } else {
      assert b[..k] == a[..k][j := v];
      LineDiffSet(a[..k], j, v);
    }
  }

  lemma {:induction false} DiffSetRow(g: Cells, i: nat, l: seq<State>)
    requires i < |g| && |l| == |g[i]|
    ensures SameShape(g, g[i := l])
    ensures Diff(g, g[i := l]) == LineDiff(g[i], l)
  {
    var k := |g| - 1;
    var h := g[i := l];
    if i == k {
      assert h[..k] == g[..k];
      assert SameShape(g[..k], h[..k]);
      assert Diff(g, h) == Diff(g[..k], h[..k]) + LineDiff(g[k], h[k]);
      DiffZero(g[..k], h[..k]);
    } else {
      assert h[..k] == g[..k][i := l];
      DiffSetRow(g[..k], i, l);
      LineDiffZero(g[k], h[k]);
    }
  }

  /** Setting one cell changes the count by one exactly when the cell's state changes. */
  lemma DiffSetCell(g: Cells, i: nat, j: nat, v: State)
    requires i < |g| && j < |g[i]|
    ensures SameShape(g, g[i := g[i][j := v]])
    ensures Diff(g, g[i := g[i][j := v]]) == if g[i][j] == v then 0 else 1
  {
    DiffSetRow(g, i, g[i][j := v]);
    LineDiffSet(g[i], j, v);
  }

  /** Deciding one Unknown cell adds one to the changes counted since `start`. */
  lemma DecideCellStep(start: Cells, g: Cells, i: nat, j: nat, v: State)
    requires GridRefines(start, g) && i < |g| && j < |g[i]|
    requires g[i][j] == Unknown && v != Unknown
    ensures GridRefines(start, g[i := g[i][j := v]])
    ensures SameShape(start, g) && SameShape(start, g[i := g[i][j := v]])
    ensures Diff(start, g[i := g[i][j := v]]) == Diff(start, g) + 1
  {
    var h := g[i := g[i][j := v]];
    assert GridRefines(g, h);
    DiffSetCell(g, i, j, v);
    DiffTrans(start, g, h);
    UnknownsSplit(start, g);
  }

  // ---------------------------------------------------------------------
  // The two passes.
  // ---------------------------------------------------------------------

  /** The grid a pass leaves behind, and false when it stopped at a contradiction. */
  datatype Pass = Pass(grid: Cells, ok: bool)

  lemma LinePassShape(line: seq<State>, block: seq<int>)
    requires LinePass(line, block).Some?
    ensures Refines(line, LinePass(line, block).value)
  {
    LinePassSpec(line, block);
  }

  /**
   * tryRows (solver.go:103-150) from row k on: each row in turn is replaced
   * by its line pass; the first row without a suitable placement stops the
   * pass, leaving the rows before it updated.
   */
  ghost function RowPassFrom(g: Cells, rows: seq<seq<int>>, k: nat): (r: Pass)
    requires Square(g, |g|) && |rows| == |g| && k <= |g|
    ensures Square(r.grid, |g|) && GridRefines(g, r.grid)
    decreases |g| - k
  {
    if k == |g| then RefinesRefl(g); Pass(g, true)
    else match LinePass(g[k], rows[k])
      case None => RefinesRefl(g); Pass(g, false)
      case Some(l) =>
        LinePassShape(g[k], rows[k]);
        var h := g[k := l];
        assert GridRefines(g, h);
        var r := RowPassFrom(h, rows, k + 1);
        RefinesTrans(g, h, r.grid);
        r
  }

  /**
   * tryColumns (solver.go:153-200) from column k on, the same deduction on
   * the columns of the grid.
   */
  ghost function ColumnPassFrom(g: Cells, cols: seq<seq<int>>, k: nat): (r: Pass)
    requires Square(g, |g|) && |cols| == |g| && k <= |g|
    ensures Square(r.grid, |g|) && GridRefines(g, r.grid)
    decreases |g| - k
  {
    if k == |g| then RefinesRefl(g); Pass(g, true)
    else match LinePass(Column(g, k), cols[k])
      case None => RefinesRefl(g); Pass(g, false)
      case Some(l) =>
        LinePassShape(Column(g, k), cols[k]);
        var h := SetColumn(g, k, l);
        assert GridRefines(g, h) by {
          forall i | 0 <= i < |g|
            ensures Refines(g[i], h[i])
          {
            assert l[i] == Column(g, k)[i] || Column(g, k)[i] == Unknown;
          }
        }
        var r := ColumnPassFrom(h, cols, k + 1);
        RefinesTrans(g, h, r.grid);
        r
  }

  /**
   * A row pass is the line pass of every row: it succeeds exactly when each
   * row has a suitable placement, and then row i of the result is the line
   * pass of row i; rows before k are never touched.
   */
  lemma {:induction false} RowPassSpec(g: Cells, rows: seq<seq<int>>, k: nat)
    requires Square(g, |g|) && |rows| == |g| && k <= |g|
    ensures RowPassFrom(g, rows, k).ok <==> forall i :: k <= i < |g| ==> LinePass(g[i], rows[i]).Some?
    ensures RowPassFrom(g, rows, k).ok ==>
      forall i :: k <= i < |g| ==> LinePass(g[i], rows[i]) == Some(RowPassFrom(g, rows, k).grid[i])
    ensures forall i :: 0 <= i < k ==> RowPassFrom(g, rows, k).grid[i] == g[i]
    decreases |g| - k
  {
    if k < |g| && LinePass(g[k], rows[k]).Some? {
      var l := LinePass(g[k], rows[k]).value;
      LinePassShape(g[k], rows[k]);
      var h := g[k := l];
      assert Square(h, |g|);
      assert RowPassFrom(g, rows, k) == RowPassFrom(h, rows, k + 1);
      RowPassSpec(h, rows, k + 1);
      assert forall i :: k < i < |g| ==> h[i] == g[i];
    }
  }

  /** The column pass is the line pass of every column, in the same sense. */
  lemma ColumnPassSpec(g: Cells, cols: seq<seq<int>>, k: nat)
    requires Square(g, |g|) && |cols| == |g| && k <= |g|
    ensures ColumnPassFrom(g, cols, k).ok <==> forall j :: k <= j < |g| ==> LinePass(Column(g, j), cols[j]).Some?
    ensures ColumnPassFrom(g, cols, k).ok ==>
      forall j :: k <= j < |g| ==> LinePass(Column(g, j), cols[j]) == Some(Column(ColumnPassFrom(g, cols, k).grid, j))
    ensures forall j :: 0 <= j < k ==> Column(ColumnPassFrom(g, cols, k).grid, j) == Column(g, j)
  {
    ColumnPassKeepsPrefix(g, cols, k);
    ColumnPassOk(g, cols, k);
    ColumnPassValues(g, cols, k);
  }

  /** The column pass leaves the columns before k alone. */
  lemma {:induction false} ColumnPassKeepsPrefix(g: Cells, cols: seq<seq<int>>, k: nat)
    requires Square(g, |g|) && |cols| == |g| && k <= |g|
    ensures forall j :: 0 <= j < k ==> Column(ColumnPassFrom(g, cols, k).grid, j) == Column(g, j)
    decreases |g| - k
  {
    if k < |g| && LinePass(Column(g, k), cols[k]).Some? {
      var l := LinePass(Column(g, k), cols[k]).value;
      LinePassShape(Column(g, k), cols[k]);
      SetColumnColumns(g, k, l);
      ColumnPassKeepsPrefix(SetColumn(g, k, l), cols, k + 1);
    }
  }

  /** The column pass succeeds exactly when the line pass of every column from k on does. */
  lemma {:induction false} ColumnPassOk(g: Cells, cols: seq<seq<int>>, k: nat)
    requires Square(g, |g|) && |cols| == |g| && k <= |g|
    ensures ColumnPassFrom(g, cols, k).ok <==> forall j :: k <= j < |g| ==> LinePass(Column(g, j), cols[j]).Some?
    decreases |g| - k
  {
    if k < |g| && LinePass(Column(g, k), cols[k]).Some? {
      var l := LinePass(Column(g, k), cols[k]).value;
      LinePassShape(Column(g, k), cols[k]);
      SetColumnColumns(g, k, l);
      ColumnPassOk(SetColumn(g, k, l), cols, k + 1);
    }
  }

  /** When the column pass succeeds, every column from k on is its line pass. */
  lemma {:induction false} ColumnPassValues(g: Cells, cols: seq<seq<int>>, k: nat)
    requires Square(g, |g|) && |cols| == |g| && k <= |g|
    ensures ColumnPassFrom(g, cols, k).ok ==>
      forall j :: k <= j < |g| ==> LinePass(Column(g, j), cols[j]) == Some(Column(ColumnPassFrom(g, cols, k).grid, j))
    decreases |g| - k
  {
    if k < |g| && LinePass(Column(g, k), cols[k]).Some? {
      var l := LinePass(Column(g, k), cols[k]).value;
      LinePassShape(Column(g, k), cols[k]);
      SetColumnColumns(g, k, l);
      ColumnPassValues(SetColumn(g, k, l), cols, k + 1);
      ColumnPassKeepsPrefix(SetColumn(g, k, l), cols, k + 1);
    }
  }

  /** One step of the row pass: row k is replaced by its line pass, or the pass stops. */
  lemma RowPassStep(g: Cells, rows: seq<seq<int>>, k: nat)
    requires Square(g, |g|) && |rows| == |g| && k < |g|
    ensures LinePass(g[k], rows[k]).None? ==> RowPassFrom(g, rows, k) == Pass(g, false)
    ensures LinePass(g[k], rows[k]).Some? ==>
      RowPassFrom(g, rows, k) == RowPassFrom(g[k := LinePass(g[k], rows[k]).value], rows, k + 1)
  {
    if LinePass(g[k], rows[k]).Some? {
      LinePassShape(g[k], rows[k]);
    }
  }

  /** A grid whose rows before k are the line passes of those of g: the row pass of g has reached it at row k. */
  lemma {:induction false} RowPassReaches(g: Cells, h: Cells, rows: seq<seq<int>>, k: nat)
    requires Square(g, |g|) && Square(h, |g|) && |rows| == |g| && k <= |g|
    requires forall i :: 0 <= i < k ==> LinePass(g[i], rows[i]) == Some(h[i])
    requires forall i :: k <= i < |g| ==> h[i] == g[i]
    ensures RowPassFrom(g, rows, 0) == RowPassFrom(h, rows, k)
    decreases k
  {
    if k == 0 {
      assert h == g;
    } else {
      var h' := h[k - 1 := g[k - 1]];
      RowPassReaches(g, h', rows, k - 1);
      assert h'[k - 1 := h[k - 1]] == h;
      RowPassStep(h', rows, k - 1);
    }
  }

  /** Writing back the column that was replaced restores the grid. */
  lemma SetColumnBack(h: Cells, c: nat, x: seq<State>)
    requires Square(h, |h|) && c < |h| && |x| == |h|
    ensures SetColumn(SetColumn(h, c, x), c, Column(h, c)) == h
  {
    var r := SetColumn(SetColumn(h, c, x), c, Column(h, c));
    forall i | 0 <= i < |h|
      ensures r[i] == h[i]
    {
      assert r[i] == h[i][c := x[i]][c := h[i][c]];
    }
  }

  /** Grids of the same shape with the same columns are equal. */
  lemma ColumnsEqual(g: Cells, h: Cells)
    requires Square(g, |g|) && Square(h, |g|)
    requires forall j :: 0 <= j < |g| ==> Column(h, j) == Column(g, j)
    ensures h == g
  {
    forall i | 0 <= i < |g|
      ensures h[i] == g[i]
    {
      forall j | 0 <= j < |g|
        ensures h[i][j] == g[i][j]
      {
        assert Column(h, j)[i] == Column(g, j)[i];
      }
    }
  }

  /** The column counterpart of RowPassReaches. */
  lemma {:induction false} ColumnPassReaches(g: Cells, h: Cells, cols: seq<seq<int>>, k: nat)
    requires Square(g, |g|) && Square(h, |g|) && |cols| == |g| && k <= |g|
    requires forall j :: 0 <= j < k ==> LinePass(Column(g, j), cols[j]) == Some(Column(h, j))
    requires forall j :: k <= j < |g| ==> Column(h, j) == Column(g, j)
    ensures ColumnPassFrom(g, cols, 0) == ColumnPassFrom(h, cols, k)
    decreases k
  {
    if k == 0 {
      ColumnsEqual(h, g);
    } else {
      var h' := SetColumn(h, k - 1, Column(g, k - 1));
      SetColumnColumns(h, k - 1, Column(g, k - 1));
      ColumnPassReaches(g, h', cols, k - 1);
      SetColumnBack(h, k - 1, Column(g, k - 1));
      ColumnPassStep(h', cols, k - 1);
    }
  }

  /** The row pass and the column pass end with success after the last line. */
  lemma PassesDone(g: Cells, rows: seq<seq<int>>, cols: seq<seq<int>>)
    requires Square(g, |g|) && |rows| == |g| && |cols| == |g|
    ensures RowPassFrom(g, rows, |g|) == Pass(g, true)
    ensures ColumnPassFrom(g, cols, |g|) == Pass(g, true)
  {
  }

  /** One step of the column pass: column k is replaced by its line pass, or the pass stops. */
  lemma ColumnPassStep(g: Cells, cols: seq<seq<int>>, k: nat)
    requires Square(g, |g|) && |cols| == |g| && k < |g|
    ensures LinePass(Column(g, k), cols[k]).None? ==> ColumnPassFrom(g, cols, k) == Pass(g, false)
    ensures LinePass(Column(g, k), cols[k]).Some? ==>
      ColumnPassFrom(g, cols, k) == ColumnPassFrom(SetColumn(g, k, LinePass(Column(g, k), cols[k]).value), cols, k + 1)
  {
    if LinePass(Column(g, k), cols[k]).Some? {
      LinePassShape(Column(g, k), cols[k]);
      SetColumnColumns(g, k, LinePass(Column(g, k), cols[k]).value);
    }
  }

  /** Replacing column k changes column k only. */
  lemma SetColumnColumns(g: Cells, k: nat, l: seq<State>)
    requires Square(g, |g|) && k < |g| && |l| == |g|
    ensures Square(SetColumn(g, k, l), |g|)
    ensures Column(SetColumn(g, k, l), k) == l
    ensures forall j :: 0 <= j < |g| && j != k ==> Column(SetColumn(g, k, l), j) == Column(g, j)
  {
    var h := SetColumn(g, k, l);
    assert Column(h, k) == l;
    forall j | 0 <= j < |g| && j != k
      ensures Column(h, j) == Column(g, j)
    {
    }
  }

  // ---------------------------------------------------------------------
  // solve and tryToGuess.
  // ---------------------------------------------------------------------

  /** The error values of solver.go:20-22, and Ok for a nil error. */
  datatype Status = Ok | NilPattern | Contradiction | CanNotSolve

  datatype Outcome = Outcome(status: Status, grid: Cells)

  /** The result of tryToGuess together with the grid it leaves. */
  datatype Guess = Guess(found: bool, grid: Cells)

  /** Patterns without a negative block length, as every pattern pattern.go derives is. */
  ghost predicate AllNonNegative(p: seq<seq<int>>)
  {
    forall i :: 0 <= i < |p| ==> NonNegative(p[i])
  }

  ghost predicate Shaped(g: Cells, rows: seq<seq<int>>, cols: seq<seq<int>>)
  {
    Square(g, |g|) && |rows| == |g| && |cols| == |g|
  }

  lemma GuessDecreases(g: Cells, i: nat, j: nat)
    requires Square(g, |g|) && i < |g| && j < |g| && g[i][j] == Unknown
    ensures Square(g[i := g[i][j := Filled]], |g|)
    ensures GridRefines(g, g[i := g[i][j := Filled]])
    ensures Unknowns(g[i := g[i][j := Filled]]) < Unknowns(g)
  {
    var h := g[i := g[i][j := Filled]];
    assert GridRefines(g, h);
    UnknownsSplit(g, h);
    DiffSetCell(g, i, j, Filled);
  }

  /**
   * solve (solver.go:48-72): a row pass, then a column pass; a contradiction
   * in either ends the solve. When neither pass changed a cell the grid is
   * either solved or handed to tryToGuess; otherwise the loop goes round.
   */
  ghost function SolveSpec(g: Cells, rows: seq<seq<int>>, cols: seq<seq<int>>): (r: Outcome)
    requires Shaped(g, rows, cols)
    ensures Square(r.grid, |g|) && GridRefines(g, r.grid)
    ensures r.status != NilPattern
    ensures r.status == Ok ==> IsSolved(r.grid)
    decreases Unknowns(g), 1, 0, 0
  {
    var rp := RowPassFrom(g, rows, 0);
    if !rp.ok then Outcome(Contradiction, rp.grid)
    else
      var cp := ColumnPassFrom(rp.grid, cols, 0);
      RefinesTrans(g, rp.grid, cp.grid);
      UnknownsSplit(g, rp.grid);
      UnknownsSplit(rp.grid, cp.grid);
      if !cp.ok then Outcome(Contradiction, cp.grid)
      else if Diff(g, rp.grid) == 0 && Diff(rp.grid, cp.grid) == 0 then
        if IsSolved(cp.grid) then Outcome(Ok, cp.grid)
        else
          var gs := GuessFrom(cp.grid, rows, cols, 0, 0);
          RefinesTrans(g, cp.grid, gs.grid);
          Outcome(if gs.found then Ok else CanNotSolve, gs.grid)
      else
        var r := SolveSpec(cp.grid, rows, cols);
        RefinesTrans(g, cp.grid, r.grid);
        r
  }

  /** One round of solve: what SolveSpec gives after a row pass and a column pass. */
  lemma SolveStep(g: Cells, rows: seq<seq<int>>, cols: seq<seq<int>>)
    requires Shaped(g, rows, cols)
    ensures var rp := RowPassFrom(g, rows, 0);
      !rp.ok ==> SolveSpec(g, rows, cols) == Outcome(Contradiction, rp.grid)
    ensures var rp := RowPassFrom(g, rows, 0);
      var cp := ColumnPassFrom(rp.grid, cols, 0);
      rp.ok ==>
        && Shaped(cp.grid, rows, cols)
        && (!cp.ok ==> SolveSpec(g, rows, cols) == Outcome(Contradiction, cp.grid))
        && (cp.ok && Diff(g, rp.grid) == 0 && Diff(rp.grid, cp.grid) == 0 && IsSolved(cp.grid) ==>
              SolveSpec(g, rows, cols) == Outcome(Ok, cp.grid))
        && (cp.ok && Diff(g, rp.grid) == 0 && Diff(rp.grid, cp.grid) == 0 && !IsSolved(cp.grid) ==>
              var gs := GuessFrom(cp.grid, rows, cols, 0, 0);
              SolveSpec(g, rows, cols) == Outcome(if gs.found then Ok else CanNotSolve, gs.grid))
        && (cp.ok && !(Diff(g, rp.grid) == 0 && Diff(rp.grid, cp.grid) == 0) ==>
              Unknowns(cp.grid) < Unknowns(g) && SolveSpec(g, rows, cols) == SolveSpec(cp.grid, rows, cols))
  {
    var rp := RowPassFrom(g, rows, 0);
    if rp.ok {
      var cp := ColumnPassFrom(rp.grid, cols, 0);
      UnknownsSplit(g, rp.grid);
      UnknownsSplit(rp.grid, cp.grid);
    }
  }

  /**
   * tryToGuess (solver.go:76-100) from cell (i, j) on, in row-major order:
   * the first Unknown cell whose setting to Filled lets a copy of the grid
   * be solved gives the copy's grid, and the result of isSolved on it.
   */
  ghost function GuessFrom(g: Cells, rows: seq<seq<int>>, cols: seq<seq<int>>, i: nat, j: nat): (r: Guess)
    requires Shaped(g, rows, cols) && i <= |g| && j <= |g|
    ensures Square(r.grid, |g|) && GridRefines(g, r.grid)
    ensures r.found ==> IsSolved(r.grid)
    ensures !r.found ==> r.grid == g
    decreases Unknowns(g), 0, |g| - i, |g| - j
  {
    if i == |g| then RefinesRefl(g); Guess(false, g)
    else if j == |g| then GuessFrom(g, rows, cols, i + 1, 0)
    else if g[i][j] != Unknown then GuessFrom(g, rows, cols, i, j + 1)
    else
      var h := g[i := g[i][j := Filled]];
      GuessDecreases(g, i, j);
      var o := SolveSpec(h, rows, cols);
      if o.status != Ok then GuessFrom(g, rows, cols, i, j + 1)
      else
        RefinesTrans(g, h, o.grid);
        Guess(IsSolved(o.grid), o.grid)
  }

  // ---------------------------------------------------------------------
  // What a solve establishes.
  // ---------------------------------------------------------------------

  /** A line is what some placement of its blocks paints. */
  ghost predicate LineSatisfies(line: seq<State>, block: seq<int>)
  {
    exists p :: IsPlacement(|line|, block, p) && Painted(|line|, p, block) == line
  }

  /** A solution of the puzzle: every row and every column painted by a placement of its pattern. */
  ghost predicate Satisfies(s: Cells, rows: seq<seq<int>>, cols: seq<seq<int>>)
    requires Shaped(s, rows, cols)
  {
    && (forall i :: 0 <= i < |s| ==> LineSatisfies(s[i], rows[i]))
    && (forall j :: 0 <= j < |s| ==> LineSatisfies(Column(s, j), cols[j]))
  }

  /**
   * tryRows enumerates the placements of a row over s.n cells
   * (solver.go:106-112) where the row has s.m. In a 2 × 3 puzzle whose
   * top row is full, the row pattern [3] has no placement in 2 cells, so the
   * pass reports a contradiction although the row [Filled, Filled, Filled]
   * is painted by the placement [0] of [3].
   */
  lemma AsWrittenRowWidthContradicts()
    ensures Placements(2, [3]) == []
    ensures IsPlacement(3, [3], [0]) && Painted(3, [0], [3]) == [Filled, Filled, Filled]
    ensures LineSatisfies([Filled, Filled, Filled], [3])
    ensures LinePass([Unknown, Unknown], [3]).None?
  {
    TooLongNoPlacement(2, [3]);
    LinePassValue([Unknown, Unknown], [3]);
    assert LineSurvivors([Unknown, Unknown], [3]) == Survivors([Unknown, Unknown], [3], []);
    assert Covered([0], [3], 0) && Covered([0], [3], 1) && Covered([0], [3], 2);
    assert Painted(3, [0], [3]) == [Filled, Filled, Filled];
  }

  /** A solution has no Unknown cell. */
  lemma SolutionSolved(s: Cells, rows: seq<seq<int>>, cols: seq<seq<int>>)
    requires Shaped(s, rows, cols) && Satisfies(s, rows, cols)
    ensures IsSolved(s)
  {
    forall i, j | 0 <= i < |s| && 0 <= j < |s[i]|
      ensures s[i][j] != Unknown
    {
      var p :| IsPlacement(|s[i]|, rows[i], p) && Painted(|s[i]|, p, rows[i]) == s[i];
    }
  }

  /** A complete grid that both passes accept unchanged is a solution. */
  lemma FixedPointSolves(g: Cells, rows: seq<seq<int>>, cols: seq<seq<int>>)
    requires Shaped(g, rows, cols) && IsSolved(g)
    requires RowPassFrom(g, rows, 0).ok && ColumnPassFrom(g, cols, 0).ok
    ensures Satisfies(g, rows, cols)
  {
    RowPassSpec(g, rows, 0);
    ColumnPassSpec(g, cols, 0);
    forall i | 0 <= i < |g|
      ensures LineSatisfies(g[i], rows[i])
    {
      CompleteLineIsPainted(g[i], rows[i]);
    }
    forall j | 0 <= j < |g|
      ensures LineSatisfies(Column(g, j), cols[j])
    {
      CompleteLineIsPainted(Column(g, j), cols[j]);
    }
  }

  /**
   * Soundness of solve: a nil error means the grid is a solution of the
   * patterns, and it agrees with every cell that was known before.
   */
  lemma {:induction false} SolveSound(g: Cells, rows: seq<seq<int>>, cols: seq<seq<int>>)
    requires Shaped(g, rows, cols)
    ensures SolveSpec(g, rows, cols).status == Ok ==> Satisfies(SolveSpec(g, rows, cols).grid, rows, cols)
    decreases Unknowns(g), 1, 0, 0, 0
  {
    var rp := RowPassFrom(g, rows, 0);
    if rp.ok {
      var cp := ColumnPassFrom(rp.grid, cols, 0);
      UnknownsSplit(g, rp.grid);
      UnknownsSplit(rp.grid, cp.grid);
      RefinesTrans(g, rp.grid, cp.grid);
      if cp.ok {
        if Diff(g, rp.grid) == 0 && Diff(rp.grid, cp.grid) == 0 {
          DiffZero(g, rp.grid);
          DiffZero(rp.grid, cp.grid);
          if IsSolved(cp.grid) {
            FixedPointSolves(g, rows, cols);
          } else {
            GuessSound(cp.grid, rows, cols, 0, 0);
          }
        } else {
          SolveSound(cp.grid, rows, cols);
        }
      }
    }
  }

  /** A guess that reports success leaves a solution of the patterns. */
  lemma {:induction false} GuessSound(g: Cells, rows: seq<seq<int>>, cols: seq<seq<int>>, i: nat, j: nat)
    requires Shaped(g, rows, cols) && i <= |g| && j <= |g|
    ensures GuessFrom(g, rows, cols, i, j).found ==> Satisfies(GuessFrom(g, rows, cols, i, j).grid, rows, cols)
    decreases Unknowns(g), 0, |g| - i, |g| - j, 2
  {
    if i == |g| {
    } else if j == |g| {
      GuessSound(g, rows, cols, i + 1, 0);
    } else if g[i][j] != Unknown {
      GuessSound(g, rows, cols, i, j + 1);
    } else {
      GuessSoundAt(g, rows, cols, i, j);
    }
  }

  /** GuessSound at an Unknown cell: either the copy solves, soundly, or the guess moves on. */
  lemma {:induction false} GuessSoundAt(g: Cells, rows: seq<seq<int>>, cols: seq<seq<int>>, i: nat, j: nat)
    requires Shaped(g, rows, cols) && i < |g| && j < |g| && g[i][j] == Unknown
    ensures GuessFrom(g, rows, cols, i, j).found ==> Satisfies(GuessFrom(g, rows, cols, i, j).grid, rows, cols)
    decreases Unknowns(g), 0, |g| - i, |g| - j, 1
  {
    GuessDecreases(g, i, j);
    if SolveSpec(g[i := g[i][j := Filled]], rows, cols).status != Ok {
      GuessSoundSkip(g, rows, cols, i, j);
    } else {
      GuessSoundSolved(g, rows, cols, i, j);
    }
  }

  /** The copy with (i, j) Filled does not solve: the guess is the one from the next cell. */
  lemma {:induction false} GuessSoundSkip(g: Cells, rows: seq<seq<int>>, cols: seq<seq<int>>, i: nat, j: nat)
    requires Shaped(g, rows, cols) && i < |g| && j < |g| && g[i][j] == Unknown
    requires Shaped(g[i := g[i][j := Filled]], rows, cols)
    requires SolveSpec(g[i := g[i][j := Filled]], rows, cols).status != Ok
    ensures GuessFrom(g, rows, cols, i, j).found ==> Satisfies(GuessFrom(g, rows, cols, i, j).grid, rows, cols)
    decreases Unknowns(g), 0, |g| - i, |g| - j, 0
  {
    GuessStep(g, rows, cols, i, j);
    GuessSound(g, rows, cols, i, j + 1);
  }

  /** The copy with (i, j) Filled solves: the guess is its grid. */
  lemma {:induction false} GuessSoundSolved(g: Cells, rows: seq<seq<int>>, cols: seq<seq<int>>, i: nat, j: nat)
    requires Shaped(g, rows, cols) && i < |g| && j < |g| && g[i][j] == Unknown
    requires Shaped(g[i := g[i][j := Filled]], rows, cols)
    requires SolveSpec(g[i := g[i][j := Filled]], rows, cols).status == Ok
    ensures GuessFrom(g, rows, cols, i, j).found ==> Satisfies(GuessFrom(g, rows, cols, i, j).grid, rows, cols)
    decreases Unknowns(g), 0, |g| - i, |g| - j, 0
  {
    GuessStep(g, rows, cols, i, j);
    SolveSound(g[i := g[i][j := Filled]], rows, cols);
  }

  /** The guess at an Unknown cell (i, j): the next cell when the copy fails to solve, the copy's grid when it solves. */
  lemma GuessStep(g: Cells, rows: seq<seq<int>>, cols: seq<seq<int>>, i: nat, j: nat)
    requires Shaped(g, rows, cols) && i < |g| && j < |g| && g[i][j] == Unknown
    ensures Shaped(g[i := g[i][j := Filled]], rows, cols)
    ensures Unknowns(g[i := g[i][j := Filled]]) < Unknowns(g)
    ensures SolveSpec(g[i := g[i][j := Filled]], rows, cols).status != Ok ==>
      GuessFrom(g, rows, cols, i, j) == GuessFrom(g, rows, cols, i, j + 1)
    ensures SolveSpec(g[i := g[i][j := Filled]], rows, cols).status == Ok ==>
      var o := SolveSpec(g[i := g[i][j := Filled]], rows, cols);
      GuessFrom(g, rows, cols, i, j) == Guess(IsSolved(o.grid), o.grid)
  {
    GuessDecreases(g, i, j);
  }

  /** When a solution agrees with a line, so does the line pass of that line. */
  lemma LinePassKeepsSolution(line: seq<State>, sol: seq<State>, block: seq<int>)
    requires Refines(line, sol) && LineSatisfies(sol, block)
    ensures LinePass(line, block).Some?
    ensures Refines(LinePass(line, block).value, sol)
  {
    var p :| IsPlacement(|sol|, block, p) && Painted(|sol|, p, block) == sol;
    assert Suitable(line, Painted(|line|, p, block));
    LinePassKeepsPlacements(line, block, p);
    LinePassShape(line, block);
  }

  lemma {:induction false} RowPassKeepsSolution(g: Cells, rows: seq<seq<int>>, cols: seq<seq<int>>, s: Cells, k: nat)
    requires Shaped(g, rows, cols) && Shaped(s, rows, cols) && k <= |g|
    requires Satisfies(s, rows, cols) && GridRefines(g, s)
    ensures RowPassFrom(g, rows, k).ok && GridRefines(RowPassFrom(g, rows, k).grid, s)
    decreases |g| - k
  {
    if k < |g| {
      LinePassKeepsSolution(g[k], s[k], rows[k]);
      var l := LinePass(g[k], rows[k]).value;
      LinePassShape(g[k], rows[k]);
      RowPassKeepsSolution(g[k := l], rows, cols, s, k + 1);
    }
  }

  lemma SetColumnKeeps(g: Cells, s: Cells, k: nat, l: seq<State>)
    requires Square(g, |g|) && Square(s, |g|) && k < |g| && |l| == |g|
    requires GridRefines(g, s) && Refines(l, Column(s, k))
    ensures Square(SetColumn(g, k, l), |g|) && GridRefines(SetColumn(g, k, l), s)
  {
    var h := SetColumn(g, k, l);
    forall i | 0 <= i < |g|
      ensures Refines(h[i], s[i])
    {
      assert h[i] == g[i][k := l[i]];
      assert l[i] != Unknown ==> l[i] == s[i][k];
    }
  }

  lemma {:induction false} ColumnPassKeepsSolution(g: Cells, rows: seq<seq<int>>, cols: seq<seq<int>>, s: Cells, k: nat)
    requires Shaped(g, rows, cols) && Shaped(s, rows, cols) && k <= |g|
    requires Satisfies(s, rows, cols) && GridRefines(g, s)
    ensures ColumnPassFrom(g, cols, k).ok && GridRefines(ColumnPassFrom(g, cols, k).grid, s)
    decreases |g| - k
  {
    if k < |g| {
      var col := Column(g, k);
      assert Refines(col, Column(s, k));
      LinePassKeepsSolution(col, Column(s, k), cols[k]);
      var l := LinePass(col, cols[k]).value;
      LinePassShape(col, cols[k]);
      var h := SetColumn(g, k, l);
      SetColumnKeeps(g, s, k, l);
      ColumnPassKeepsSolution(h, rows, cols, s, k + 1);
    }
  }

  /**
   * Completeness of the deduction: while the grid agrees with some solution
   * of the patterns, solve never reports a contradiction.
   */
  lemma {:induction false} SolveNoContradiction(g: Cells, rows: seq<seq<int>>, cols: seq<seq<int>>, s: Cells)
    requires Shaped(g, rows, cols) && Shaped(s, rows, cols)
    requires Satisfies(s, rows, cols) && GridRefines(g, s)
    ensures SolveSpec(g, rows, cols).status != Contradiction
    decreases Unknowns(g)
  {
    RowPassKeepsSolution(g, rows, cols, s, 0);
    var rp := RowPassFrom(g, rows, 0);
    ColumnPassKeepsSolution(rp.grid, rows, cols, s, 0);
    var cp := ColumnPassFrom(rp.grid, cols, 0);
    UnknownsSplit(g, rp.grid);
    UnknownsSplit(rp.grid, cp.grid);
    if !(Diff(g, rp.grid) == 0 && Diff(rp.grid, cp.grid) == 0) {
      SolveNoContradiction(cp.grid, rows, cols, s);
    }
  }

  /** s is a solution of the puzzle that agrees with every known cell of g, and no row length is negative. */
  ghost predicate SolvedBy(g: Cells, rows: seq<seq<int>>, cols: seq<seq<int>>, s: Cells)
  {
    && Shaped(g, rows, cols) && Shaped(s, rows, cols) && AllNonNegative(rows)
    && Satisfies(s, rows, cols) && GridRefines(g, s)
  }

  /**
   * At a fixed point of the row pass that is not solved, some Unknown cell
   * is one that a solution fills: the row of any Unknown cell has one.
   */
  lemma FixedPointFillable(g: Cells, rows: seq<seq<int>>, cols: seq<seq<int>>, s: Cells)
    requires SolvedBy(g, rows, cols, s)
    requires RowPassFrom(g, rows, 0) == Pass(g, true) && !IsSolved(g)
    ensures exists i, j :: 0 <= i < |g| && 0 <= j < |g| && g[i][j] == Unknown && s[i][j] == Filled
  {
    var i, c :| 0 <= i < |g| && 0 <= c < |g[i]| && g[i][c] == Unknown;
    RowPassSpec(g, rows, 0);
    var p :| IsPlacement(|s[i]|, rows[i], p) && Painted(|s[i]|, p, rows[i]) == s[i];
    FixedLineFillsUnknown(g[i], rows[i], p, c);
    var j :| 0 <= j < |g[i]| && g[i][j] == Unknown && Painted(|g[i]|, p, rows[i])[j] == Filled;
    assert s[i][j] == Filled;
  }

  /**
   * Before the cell (i0, j0) in row-major order, which is Unknown and filled
   * by a solution: the guess succeeds. Every cell before it is skipped or
   * ends the guess with a solved copy, and the copy with (i0, j0) Filled
   * still agrees with the solution, so it solves.
   */
  lemma {:induction false} GuessComplete(g: Cells, rows: seq<seq<int>>, cols: seq<seq<int>>, s: Cells,
                                         i: nat, j: nat, i0: nat, j0: nat)
    requires SolvedBy(g, rows, cols, s)
    requires i0 < |g| && j0 < |g| && g[i0][j0] == Unknown && s[i0][j0] == Filled
    requires i <= |g| && j <= |g| && (i < i0 || (i == i0 && j <= j0))
    ensures GuessFrom(g, rows, cols, i, j).found
    decreases Unknowns(g), 0, |g| - i, |g| - j, 2
  {
    if j == |g| {
      GuessComplete(g, rows, cols, s, i + 1, 0, i0, j0);
    } else if g[i][j] != Unknown {
      GuessComplete(g, rows, cols, s, i, j + 1, i0, j0);
    } else if i == i0 && j == j0 {
      GuessCompleteTarget(g, rows, cols, s, i, j);
    } else {
      GuessCompleteAt(g, rows, cols, s, i, j, i0, j0);
    }
  }

  /** At the cell a solution fills, the copy with that cell Filled agrees with the solution, so it solves. */
  lemma {:induction false} GuessCompleteTarget(g: Cells, rows: seq<seq<int>>, cols: seq<seq<int>>, s: Cells,
                                               i: nat, j: nat)
    requires SolvedBy(g, rows, cols, s)
    requires i < |g| && j < |g| && g[i][j] == Unknown && s[i][j] == Filled
    ensures GuessFrom(g, rows, cols, i, j).found
    decreases Unknowns(g), 0, |g| - i, |g| - j, 0
  {
    GuessStep(g, rows, cols, i, j);
    FillKeepsSolution(g, s, i, j);
    SolveComplete(g[i := g[i][j := Filled]], rows, cols, s);
  }

  /** GuessComplete at an Unknown cell before (i0, j0): the copy solves, or the guess moves on towards (i0, j0). */
  lemma {:induction false} GuessCompleteAt(g: Cells, rows: seq<seq<int>>, cols: seq<seq<int>>, s: Cells,
                                           i: nat, j: nat, i0: nat, j0: nat)
    requires SolvedBy(g, rows, cols, s)
    requires i0 < |g| && j0 < |g| && g[i0][j0] == Unknown && s[i0][j0] == Filled
    requires i < |g| && j < |g| && g[i][j] == Unknown && (i < i0 || (i == i0 && j < j0))
    ensures GuessFrom(g, rows, cols, i, j).found
    decreases Unknowns(g), 0, |g| - i, |g| - j, 1
  {
    GuessDecreases(g, i, j);
    if SolveSpec(g[i := g[i][j := Filled]], rows, cols).status != Ok {
      GuessCompleteSkip(g, rows, cols, s, i, j, i0, j0);
    } else {
      GuessStep(g, rows, cols, i, j);
    }
  }

  /** The copy with (i, j) Filled does not solve: the guess moves on to the next cell. */
  lemma {:induction false} GuessCompleteSkip(g: Cells, rows: seq<seq<int>>, cols: seq<seq<int>>, s: Cells,
                                             i: nat, j: nat, i0: nat, j0: nat)
    requires SolvedBy(g, rows, cols, s)
    requires i0 < |g| && j0 < |g| && g[i0][j0] == Unknown && s[i0][j0] == Filled
    requires i < |g| && j < |g| && g[i][j] == Unknown && (i < i0 || (i == i0 && j < j0))
    requires Shaped(g[i := g[i][j := Filled]], rows, cols)
    requires SolveSpec(g[i := g[i][j := Filled]], rows, cols).status != Ok
    ensures GuessFrom(g, rows, cols, i, j).found
    decreases Unknowns(g), 0, |g| - i, |g| - j, 0
  {
    GuessStep(g, rows, cols, i, j);
    GuessComplete(g, rows, cols, s, i, j + 1, i0, j0);
  }

  /** Setting Filled a cell that a solution fills keeps the grid in agreement with the solution. */
  lemma FillKeepsSolution(g: Cells, s: Cells, i: nat, j: nat)
    requires GridRefines(g, s) && i < |g| && j < |g[i]| && s[i][j] == Filled
    ensures GridRefines(g[i := g[i][j := Filled]], s)
  {
  }

  /**
   * Completeness of solve: while the grid agrees with some solution of
   * patterns whose row lengths are not negative, solve returns a nil error.
   * The Filled-only guess of tryToGuess never under-solves such a puzzle.
   */
  lemma {:induction false} SolveComplete(g: Cells, rows: seq<seq<int>>, cols: seq<seq<int>>, s: Cells)
    requires SolvedBy(g, rows, cols, s)
    ensures SolveSpec(g, rows, cols).status == Ok
    decreases Unknowns(g), 1, 0, 0, 0
  {
    RowPassKeepsSolution(g, rows, cols, s, 0);
    var rp := RowPassFrom(g, rows, 0);
    ColumnPassKeepsSolution(rp.grid, rows, cols, s, 0);
    var cp := ColumnPassFrom(rp.grid, cols, 0);
    SolveStep(g, rows, cols);
    if Diff(g, rp.grid) == 0 && Diff(rp.grid, cp.grid) == 0 {
      DiffZero(g, rp.grid);
      DiffZero(rp.grid, cp.grid);
      if !IsSolved(cp.grid) {
        FixedPointFillable(g, rows, cols, s);
        var i0, j0 :| 0 <= i0 < |g| && 0 <= j0 < |g| && g[i0][j0] == Unknown && s[i0][j0] == Filled;
        GuessComplete(g, rows, cols, s, 0, 0, i0, j0);
      }
    } else {
      SolveComplete(cp.grid, rows, cols, s);
    }
  }
}
