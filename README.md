# Nonogram solver and picture codec, in Dafny

This project models the core of a Go nonogram package. The puzzle is an
n × m grid (the model covers square grids; see Left out) whose every row and column has a fill pattern: the lengths of its
runs of filled cells, in order. The package has four parts, each modelled here.

- **The placement enumerator** (`variant.go`, module `Variant`; its
  specification is module `Placement`). It yields every placement of a
  line's blocks, the start of each block, in lexicographic order.
- **The line-solving solver** (`solver.go`, module `Solver` over the pure
  specification in modules `Line` and `Grid`). It keeps a grid of
  Unknown/Filled/Blank cells. A row pass and a column pass each enumerate
  the placements of every line and keep those that agree with the known
  cells. A cell that every survivor fills becomes Filled; a cell that none
  fills becomes Blank. No placement at all is a contradiction. When a round
  changes nothing and the grid is not solved, the solver guesses. It takes
  the Unknown cells in row-major order, sets the cell Filled on a copy of
  the solver and solves the copy recursively. The first copy that solves
  ends the guess, and its grid is adopted; a copy that fails is dropped and
  the next Unknown cell is tried.
- **The bit-packed picture** (`nonogram.go`, module `Nonogram`). The picture
  is stored as 64-bit words, with Fill, Clear, Get, FromGrid and the text
  rendering with an optional cage of separator lines. Module `Layout`
  describes that text.
- **Fill-pattern derivation** (`pattern.go`, module `Patterns`; its
  specification is module `Runs`). It run-length encodes each row and column
  of a picture.

The solver's grid is a two-dimensional array updated in place. A ghost
field `cells` mirrors it as a sequence of rows. Every method of the solver is
proved against a function of module `Grid`: `RowPassFrom`, `ColumnPassFrom`,
`SolveSpec` and `GuessFrom`. Several properties are proved about those
functions:

- A nil error leaves a solution of the patterns (`Grid.SolveSound`).
- While the grid agrees with some solution, solve never reports a
  contradiction (`Grid.SolveNoContradiction`), and when no row length is
  negative it returns a nil error (`Grid.SolveComplete`). So the guess
  strategy, which only ever tries Filled, is complete on square puzzles
  with non-negative patterns. At a round that changes nothing and leaves the
  grid unsolved, some Unknown cell is one the solution fills
  (`Grid.FixedPointFillable`): every placement paints Sum(block) cells
  (`Line.PlacementCount`), so a solution that filled no Unknown cell of a
  row would paint fewer cells than the survivor that fills an undecided
  one. The guess reaches that cell unless an earlier copy solves first, and
  the copy with that cell Filled still agrees with the solution
  (`Grid.GuessComplete`).
- A line pass only adds knowledge, keeps exactly the placements that agree,
  and is idempotent (`Line.LinePassSpec`, `Line.LinePassIdempotent`).
- The enumerator yields exactly the placements, each once, in increasing
  order (`Placement.PlacementsExactly`).
- The derived patterns round-trip with painting (`Runs.RunsOfPlacement`,
  `Runs.PatternPlacesLine`).
- The patterns of any square picture describe a puzzle that the solver,
  started from all-Unknown cells, solves: it returns a nil error and a grid
  that is a solution of those patterns (`Patterns.PatternsSolvable`).

## Model

| member | source | states |
|---|---|---|
| Variant.Variant.constructor | variant.go:5-12 | the zero `variant`: nothing sent yet, the once-flag not set |
| Variant.Variant.Provide | variant.go:14-32 | the first call records n and the blocks, fills `pref[i]` with the sum of the first i blocks and sends `Placements(n, block)`; a later call changes nothing and returns what was already sent |
| Variant.Variant.GenerateVariant | variant.go:34-53 | sends exactly `Gen(n, block, cur)`, every placement extending the current prefix in order, and leaves `cur` as it found it |
| Placement.PlacementsExactly | variant.go:34-53 | a list is sent iff it is a placement (one start per block, in bounds, one blank between blocks), in strictly increasing lexicographic order, with no duplicates |
| Placement.GenComplete | variant.go:42-52 | every in-bounds extension of a prefix is sent |
| Placement.GenShape | variant.go:35-52 | everything sent extends the prefix and lies within the bounds begin..end of every block |
| Placement.GenIncreasing | variant.go:48-52 | what one recursion sends is strictly increasing in lexicographic order |
| Placement.PlacementIffInBounds | variant.go:42-46 | the begin/end bounds of the loop describe exactly the placements |
| Placement.LastFitBoundsAll | variant.go:43 | in a placement, every start is at most the `end` bound of its block |
| Placement.PlacementLength | variant.go:35-39 | every sent placement has one start per block |
| Placement.EmptyPatternOnePlacement | variant.go:35-39 | an empty pattern sends exactly one empty placement |
| Placement.ZeroPatternPlacements | variant.go:42-52 | the pattern [0] sends the n+1 placements [0], [1], .., [n] |
| Placement.TooLongNoPlacement | variant.go:42-48 | a pattern whose blocks and gaps exceed n sends nothing |
| Placement.SumAppend | variant.go:21-23 | the prefix sum of a concatenation is the sum of the two parts |
| Placement.EndsIncrease | variant.go:45 | the blocks of a placement end in increasing order, with a gap between them |
| Line.PlacementInBounds | solver.go:209-213 | every block of a placement lies inside the line, so fillWith writes inside the array |
| Line.Painted | solver.go:205-214 | the line fillWith paints has no Unknown cell, and a cell is Filled iff some block covers it |
| Line.LineSurvivorsExactly | solver.go:112-125 | the survivors of a line are exactly the placements whose painted line agrees with every known cell |
| Line.LinePassSpec | solver.go:107-147 | no survivor iff every placement disagrees with the line; otherwise the result keeps every known cell, and an Unknown cell becomes Filled iff every survivor covers it and Blank iff none does |
| Line.FillCountBounds | solver.go:127-146 | the fill count of a cell is at most the number of survivors; it equals that number iff every survivor covers the cell, and is 0 iff none does |
| Line.FillCountAll | solver.go:127-140 | the fill count equals the number of survivors iff every survivor covers the cell |
| Line.FillCountNone | solver.go:127-143 | the fill count is 0 iff no survivor covers the cell |
| Line.SurvivorsSized | solver.go:112-125 | the survivors are the offered placements that agree with the line |
| Line.LinePassKeepsPlacements | solver.go:107-147 | a placement that agrees with the line still agrees with the passed line, and the pass succeeds |
| Line.PassKeepsSuitable | solver.go:107-147 | a placement agrees with the passed line iff it agreed with the line |
| Line.LinePassIdempotent | solver.go:107-147 | passing a passed line again gives the same line |
| Line.SuitableWeaker | solver.go:115-121 | a placement that agrees with a line agrees with any line that knows less |
| Line.CompleteLineIsPainted | solver.go:107-147 | a line without Unknown cells that the pass accepts is painted by a placement of its pattern |
| Line.CoveredLastBlock | solver.go:209-213 | a cell lies in the first k blocks iff it lies in block k - 1 or in an earlier block, and never in both |
| Line.PlacementCountPrefix | solver.go:205-214 | the first k blocks of a placement of non-negative blocks fill exactly the sum of their lengths in cells |
| Line.PlacementCount | solver.go:205-214 | every placement of non-negative blocks makes fillWith fill exactly Sum(block) cells |
| Line.FixedLineFillsUnknown | solver.go:107-147 | when the pass leaves a line with an Unknown cell unchanged, every placement that agrees with the line fills one of its Unknown cells |
| Grid.Column | solver.go:166-167 | column j reads cell j of every row, top to bottom |
| Grid.SetColumn | solver.go:189-196 | writing column j changes cell j of every row and nothing else |
| Grid.UnknownsSplit | solver.go:139-147 | when h refines g, the Unknown cells of g are those of h plus the cells that changed |
| Grid.DiffZero | solver.go:60 | two grids of the same shape differ in no cell iff they are equal, so a round with no changes counted left the grid as it was |
| Grid.DiffSetCell | solver.go:140-146 | writing a cell counts one change iff its state differs |
| Grid.DecideCellStep | solver.go:140-146 | the update of one cell keeps the grid a refinement of the start and adds its change to the count |
| Grid.RowPassFrom | solver.go:103-150 | the row pass keeps the grid square and only adds knowledge |
| Grid.ColumnPassFrom | solver.go:153-200 | the column pass keeps the grid square and only adds knowledge |
| Grid.RowPassSpec | solver.go:103-150 | the row pass succeeds iff every row's line pass does, and then row i is the line pass of row i |
| Grid.ColumnPassSpec | solver.go:153-200 | the column pass succeeds iff every column's line pass does, and then column j is the line pass of column j |
| Grid.ColumnPassOk | solver.go:157-187 | the column pass from k succeeds iff every column from k on has a surviving placement |
| Grid.ColumnPassValues | solver.go:157-197 | after a successful column pass, every column from k on is its line pass |
| Grid.ColumnPassKeepsPrefix | solver.go:157-197 | the columns before k are not touched by the pass from k |
| Grid.RowPassReaches | solver.go:107-148 | a grid whose first k rows are the passes of the original rows is where the pass stands after k rows |
| Grid.ColumnPassReaches | solver.go:157-198 | the same for the first k columns |
| Grid.SetColumnColumns | solver.go:189-196 | writing column k sets that column and leaves every other column |
| Grid.GuessDecreases | solver.go:83-84 | filling an Unknown cell on the copy refines the grid and lowers the count of Unknown cells |
| Grid.SolveSpec | solver.go:48-72 | solve ends with a grid that refines the start; a nil error leaves no Unknown cell; it never gives the nil-pattern error |
| Grid.SolveStep | solver.go:48-72 | one round of solve: a contradiction in either pass ends it; a round without change ends solved or in tryToGuess; otherwise the count of Unknown cells falls and solve goes on from the new grid |
| Grid.GuessFrom | solver.go:76-100 | the guess leaves a grid that refines the one it started from |
| Grid.GuessStep | solver.go:79-95 | at an Unknown cell the guess moves on when the copy fails, and takes the copy's grid, reporting whether it is solved, when it succeeds |
| Grid.SolutionSolved | solver.go:227-237 | a solution of the patterns has no Unknown cell |
| Grid.FixedPointSolves | solver.go:60-63 | a complete grid that both passes accept is a solution of the patterns |
| Grid.SolveSound | solver.go:48-72 | a nil error leaves a grid in which every row and every column is painted by a placement of its pattern |
| Grid.GuessSound | solver.go:76-100 | a guess that reports success leaves a solution |
| Grid.GuessSoundAt | solver.go:79-95 | the same, at an Unknown cell |
| Grid.GuessSoundSkip | solver.go:85-86 | the same, when the copy does not solve |
| Grid.GuessSoundSolved | solver.go:89-95 | the same, when the copy solves |
| Grid.LinePassKeepsSolution | solver.go:107-147 | a line pass of a line that agrees with a solution succeeds and still agrees with it |
| Grid.RowPassKeepsSolution | solver.go:103-150 | the row pass of a grid that agrees with a solution succeeds and still agrees with it |
| Grid.ColumnPassKeepsSolution | solver.go:153-200 | the same for the column pass |
| Grid.SetColumnKeeps | solver.go:189-196 | writing a column that agrees with a solution keeps the grid in agreement |
| Grid.SolveNoContradiction | solver.go:48-72 | while the grid agrees with a solution of the patterns, whatever their lengths, solve does not report a contradiction |
| Grid.FillKeepsSolution | solver.go:83-84 | setting Filled a cell the solution fills keeps the copy in agreement with the solution |
| Grid.FixedPointFillable | solver.go:60-68 | when the row pass changes nothing on an unsolved grid that agrees with a solution of non-negative rows, some Unknown cell is one the solution fills |
| Grid.GuessComplete | solver.go:76-100 | a guess started at or before an Unknown cell that the solution fills reports success |
| Grid.GuessCompleteAt | solver.go:79-95 | the same, at an Unknown cell before that cell |
| Grid.GuessCompleteSkip | solver.go:85-86 | the same, when the copy at an earlier cell does not solve |
| Grid.GuessCompleteTarget | solver.go:83-95 | at the cell the solution fills, the copy solves, so the guess reports success |
| Grid.SolveComplete | solver.go:48-72 | while the grid agrees with a solution of patterns with no negative row length, solve returns a nil error |
| Grid.AsWrittenRowWidthContradicts | solver.go:106-112 | the row placements are enumerated over s.n cells: in a 2 × 3 puzzle the full row [3] has none, so the row pass over its two Unknown cells finds a contradiction, though [0] paints the three cells |
| Solver.AllUnknown | solver.go:40-43 | the fresh grid is square and every cell is Unknown |
| Solver.Solver.constructor | solver.go:24-29 | the zero Solver has an empty grid |
| Solver.Solver.Solve | solver.go:31-46 | a missing pattern gives the nil-pattern error and changes nothing; otherwise the outcome is `SolveSpec` of an all-Unknown grid; a nil error leaves a solution; a puzzle with a solution gives a nil error |
| Solver.Solver.SolveCurrent | solver.go:48-72 | the loop's error and final grid are `SolveSpec` of the grid it started from |
| Solver.Solver.Round | solver.go:50-70 | a round either finishes with `SolveSpec`'s outcome, or lowers the count of Unknown cells and keeps `SolveSpec` unchanged |
| Solver.Solver.TryRows | solver.go:103-150 | the error and grid are `RowPassFrom` of the old grid; the count returned is the number of cells decided |
| Solver.Solver.TryColumns | solver.go:153-200 | the same for `ColumnPassFrom` |
| Solver.Solver.TryRow | solver.go:107-147 | ok iff the row has a surviving placement; then the row is its line pass and the changes are counted; otherwise the grid is unchanged |
| Solver.Solver.TryColumn | solver.go:157-197 | the same for column c, every other column unchanged |
| Solver.Solver.SurveyRow | solver.go:108-133 | the number of suitable placements is the number of survivors, and each cell's count is how many survivors fill it |
| Solver.Solver.SurveyColumn | solver.go:158-183 | the same for column c |
| Solver.Solver.OfferRow | solver.go:113-121 | the row buffer holds the painted placement, and suitable iff it agrees with the row |
| Solver.Solver.OfferColumn | solver.go:163-171 | the same for column c |
| Solver.Solver.RowSuitable | solver.go:115-121 | the loop answers whether the buffer agrees with every known cell of the row |
| Solver.Solver.ColumnSuitable | solver.go:165-171 | the same for column c |
| Solver.Solver.DecideCell | solver.go:140-146 | the cell takes its decided state, the grid stays a refinement of the start, and a change is counted iff the cell was decided |
| Solver.Solver.ApplyRow | solver.go:139-147 | row r becomes its decided line and the changes returned are the cells that changed |
| Solver.Solver.ApplyColumn | solver.go:189-197 | column c becomes its decided line and the changes returned are the cells that changed |
| Solver.Solver.TryToGuess | solver.go:76-100 | the result and the grid are `GuessFrom` of the old grid from cell (0, 0) |
| Solver.Solver.GuessCell | solver.go:79-96 | a known cell, or a failing copy, moves the guess on with the grid unchanged; otherwise the guess ends with its result |
| Solver.Solver.GuessUnknown | solver.go:83-95 | done iff the copy with the cell Filled solves; then the grid is the copy's and the result is whether it is solved; otherwise nothing changes |
| Solver.Solver.CopyBack | solver.go:89-93 | the grid takes every cell of the copy |
| Solver.Solver.IsSolved | solver.go:227-237 | true iff no cell is Unknown |
| Solver.CopySolver | solver.go:337-357 | a fresh solver with the same size, patterns and cells, and its own grid |
| Solver.CopyFilled | solver.go:83-84 | the copy with cell (i, j) Filled |
| Solver.FillWith | solver.go:205-214 | the array holds the painted line of the placement |
| Solver.AddFills | solver.go:128-132 | every filled cell of the buffer adds one to its count, and no other count changes |
| Solver.CountPlacement | solver.go:127-132 | after counting one more survivor, each cell's count is its fill count over the survivors so far |
| Solver.Glyphs | solver.go:257-263 | each cell is shown as fill, empty or unknown according to its state |
| Solver.Solver.ToString | solver.go:239-269 | the text is the layout of the cells' glyphs with the cage |
| Solver.Solver.WriteRow | solver.go:253-265 | appends row i's text: its glyphs with a bar before every caged column |
| Solver.PlainTextShowsCell | solver.go:239-269 | without a cage, rune j of line i shows cell (i, j), each state by its own rune, and each line ends in a newline |
| Solver.Solver.String | solver.go:271-273 | '#', 'x' and '.', no cage |
| Solver.Solver.PrettyString | solver.go:275-277 | '█', '╳' and a space, no cage |
| Solver.Solver.StringCaged | solver.go:279-281 | '#', 'x' and '.', with the cage |
| Solver.Solver.PrettyStringCaged | solver.go:283-285 | '█', '╳' and a space, with the cage |
| Solver.Solver.ToNonogram | solver.go:323-335 | a new Nonogram of the same size whose picture is set exactly at the Filled cells |
| Solver.Solver.PaintRow | solver.go:327-331 | after row i, the picture is set exactly at the Filled cells of rows 0..i |
| Solver.FilledPicture | solver.go:328 | a cell of the picture is set iff it is Filled |
| Nonogram.EncodedSizeSpec | nonogram.go:57-59 | for n·m ≥ 0 the word count is the least number of 64-bit words holding n·m bits; it is negative iff n·m ≤ -127 (Go's truncating division) |
| Nonogram.OrBit | nonogram.go:105 | or-ing in 1<<b sets bit b and keeps every other bit |
| Nonogram.AndNotBit | nonogram.go:116 | `x & (1<<64 - 1 ^ 1<<b)` clears bit b and keeps every other bit |
| Nonogram.PosRoundTrip | nonogram.go:103 | the bit position is the index modulo 64 |
| Nonogram.SetWordBitSpec | nonogram.go:105-116 | writing bit b of a word sets it to the value and keeps every other bit |
| Nonogram.SetThenSet | nonogram.go:105 | filling a filled bit changes nothing |
| Nonogram.SetThenClear | nonogram.go:105-116 | filling then clearing a bit is clearing it |
| Nonogram.ClearThenSet | nonogram.go:105-116 | clearing then filling a bit is filling it |
| Nonogram.ClearThenClear | nonogram.go:116 | clearing a cleared bit changes nothing |
| Nonogram.SetBitSpec | nonogram.go:102-116 | writing bit k of the words changes bit k only |
| Nonogram.SetBitTwice | nonogram.go:102-116 | the second write to a bit wins |
| Nonogram.CellIndexProduct | nonogram.go:81-89 | the bit of cell (i, j) in toString's walk is i·width + j |
| Nonogram.CellIndexInjective | nonogram.go:81-89 | distinct cells of an h × width grid have distinct bits, all below h·width |
| Nonogram.WordInRange | nonogram.go:57-59 | the bit of every cell of an n × m grid lies in one of its EncodedSize(n, m) words |
| Nonogram.CellIndexNextCell | nonogram.go:86-89 | the next cell of a row is the next bit |
| Nonogram.CellIndexNextRow | nonogram.go:77-91 | the first cell of the next row follows the last cell of the row |
| Nonogram.PictureOf | nonogram.go:65-92 | the picture read from the words has h rows of width cells |
| Nonogram.PictureSetBit | nonogram.go:97-117 | writing the bit of cell (i, j) changes that cell of the picture and no other |
| Nonogram.PictureOfZero | nonogram.go:21-23 | words of zeros read as a picture with every cell empty |
| Nonogram.Glyphs | nonogram.go:81-85 | each cell is shown as fill when set and blank when clear |
| Nonogram.PlainText | nonogram.go:62-95 | without a cage, rune j of line i shows cell (i, j), and each line ends in a newline |
| Nonogram.NextCell | nonogram.go:86-89 | the (word, bit) cursor of toString moves to the next cell's bit |
| Nonogram.AsWrittenIndexCollides | nonogram.go:102 | Fill uses i·n + j: in a 2 × 3 grid cell (1, 0) and cell (0, 2) share a bit, and Fill(1, 0) shows up at (0, 2) |
| Nonogram.AsWrittenIndexOverruns | nonogram.go:102 | in a 100 × 1 grid Fill(99, 0) addresses word 154 of 2 |
| Nonogram.SquareIndex | nonogram.go:102-125 | on a square grid the bit Fill, Clear and Get use is toString's bit, inside the words |
| Nonogram.Nonogram.constructor | nonogram.go:21-23 | a fresh n × m picture of EncodedSize(n, m) zero words, every cell empty |
| Nonogram.Nonogram.Wrap | nonogram.go:34-38 | the Nonogram shares the caller's words |
| Nonogram.Nonogram.Fill | nonogram.go:97-106 | inside the grid the cell's bit is set and, on a square grid, exactly that cell of the picture becomes set; outside nothing changes |
| Nonogram.Nonogram.Clear | nonogram.go:108-117 | inside the grid the cell's bit is cleared and, on a square grid, exactly that cell becomes clear; outside nothing changes |
| Nonogram.Nonogram.Get | nonogram.go:119-128 | true iff the cell is inside the grid and its bit is set; on a square grid, iff that cell of the picture is set |
| Nonogram.Nonogram.ToString | nonogram.go:62-95 | the text is the layout of the picture's glyphs with the cage, read bit after bit from the words |
| Nonogram.Nonogram.WriteRow | nonogram.go:77-90 | appends row i's text and leaves the cursor on the first bit of the next row |
| Nonogram.Nonogram.ReadCell | nonogram.go:81 | the bit toString reads for cell (i, j) is that cell of the picture |
| Nonogram.Nonogram.GlyphCell | nonogram.go:81-85 | the rune toString writes for cell (i, j) is its glyph |
| Nonogram.Nonogram.String | nonogram.go:41-43 | '#' and '.', no cage |
| Nonogram.Nonogram.PrettyString | nonogram.go:45-47 | '█' and a space, no cage |
| Nonogram.Nonogram.StringCaged | nonogram.go:49-51 | '#' and '.', with the cage |
| Nonogram.Nonogram.PrettyStringCaged | nonogram.go:53-55 | '█' and a space, with the cage |
| Nonogram.FromGrid | nonogram.go:25-39 | a size that is not positive gives ErrInvalidSize; a word count other than EncodedSize(n, m) gives ErrInvalidGrid; otherwise a Nonogram over the caller's words |
| Layout.RowTextGlyphs | nonogram.go:77-90 | a row's text without the bars is its glyphs in order |
| Layout.SeparatorDashes | nonogram.go:68-75 | a separator line holds one dash per column and otherwise only crosses |
| Layout.PlainRowText | nonogram.go:77-90 | without a cage a row's text is its glyphs |
| Layout.PlainRender | nonogram.go:62-95 | without a cage, the text of k rows of width glyphs has k lines of width + 1 runes; line i holds row i's glyphs and a newline |
| Layout.PlainRenderLength | nonogram.go:62-95 | without a cage the text of k rows is k·(width + 1) runes long |
| Layout.PlainRenderAt | nonogram.go:77-91 | without a cage, rune j of line i is glyph j of row i, or the newline |
| Layout.WriteSeparator | nonogram.go:67-74 | the separator loop appends the separator line: a '─' per column, a '┼' before each caged column, and a newline |
| Layout.RowTextCage | nonogram.go:76-84 | in a row's text glyph k sits at GlyphAt(cage, k), and the rune before glyph k (k > 0) is a '│' exactly when cage ≠ 0 and k is a non-zero multiple of the cage |
| Layout.GlyphAtPositive | nonogram.go:76-84 | with a positive cage c, glyph k of a row sits at index k + k / c of its text |
| Layout.SeparatorAligned | nonogram.go:67-84 | a separator line is as long as the row text below it and has its '┼' exactly where the row has its '│' |
| Layout.SeparatorStart | nonogram.go:68-73 | a separator line of at least one column starts with '─' |
| Layout.RenderPrefix | nonogram.go:66-92 | the text of the first i rows is a prefix of the text of the first k |
| Layout.RowGroupStart | nonogram.go:67-84 | the runes written for row i start with '─' exactly when the cage puts a separator line before row i |
| Layout.CagedRenderRow | nonogram.go:66-92 | in the text of k rows, row i occupies its separator line, if any, then its glyphs and a newline, and a separator line comes before row i exactly when cage ≠ 0, i ≠ 0 and i is a multiple of the cage |
| Runs.PatternShape | pattern.go:31-46 | a derived pattern is never empty; it is [0] iff the line has no filled cell; otherwise it is the maximal runs, all positive; its sum is the number of filled cells |
| Runs.CompletedPositive | pattern.go:38-40 | only runs of positive length are appended |
| Runs.SumCountsFilled | pattern.go:33-46 | the runs appended plus the running counter add up to the filled cells read so far |
| Runs.NoRunsIffBlank | pattern.go:36-46 | no run is found iff no cell is filled |
| Runs.RunsOfPlacement | pattern.go:31-46 | the runs of the line that fillWith paints from a placement of positive blocks are those blocks, and so is its pattern |
| Runs.PatternPlacesLine | pattern.go:31-46 | every line is painted, by fillWith, from a placement of its own derived pattern |
| Runs.ReadStep | pattern.go:34-41 | reading one more cell: a filled cell adds one to the counter; a blank cell resets it and appends the run it closes when that run is not empty |
| Runs.AppendGapAndRun | pattern.go:33-43 | a gap and a run of b filled cells append b to the runs |
| Runs.CoverTail | solver.go:205-214 | past its last block a painted line is blank |
| Runs.StartsPlaceRuns | pattern.go:33-43 | the runs found so far, at the starts where they began, form a placement that paints the line read so far |
| Patterns.RowFillLine | pattern.go:31-46 | the counter loop over one row gives that row's pattern |
| Patterns.ColumnFillLine | pattern.go:54-69 | the counter loop over one column gives that column's pattern |
| Patterns.RowFillPattern | pattern.go:29-49 | one pattern per row: pattern r is the pattern of row r of the picture |
| Patterns.ColumnFillPattern | pattern.go:51-72 | one pattern per column: pattern c is the pattern of column c of the picture |
| Patterns.FillPatterns | pattern.go:24-27 | the row patterns and the column patterns of the picture |
| Patterns.PatternPaintsLine | pattern.go:31-46 | fillWith paints the line back from its own pattern |
| Patterns.PatternNonNegative | pattern.go:31-46 | a derived pattern holds no negative length, so the solver accepts it |
| Patterns.LinePatternSatisfied | pattern.go:31-46 | every line is painted by a placement of its own pattern |
| Patterns.PatternsSolvable | pattern.go:24-72 | the picture solves the puzzle its own patterns describe, so solve started from all-Unknown cells returns a nil error and a solution of those patterns |

## Left out

- Goroutine, channel and `sync.Once` of `variant.go`. The channel is the list of everything sent on it, in order. The once-flag is a boolean. Interleaving with the consumer is not modelled.
- `SavePNG` (solver.go:287-321): file and image I/O.
- The command-line tool and the example program (`cmd/solver/main.go`, `example/example.go`) and `gen.go` are not part of this model: they are I/O and code generation.
- 64-bit integer overflow. `n * m` in EncodedSize, the counters, and the starts and prefix sums of the enumerator are unbounded integers.
- Negative block lengths. fillWith paints nothing for a block of negative length, since a range over a non-positive count runs no iterations, but generateVariant then starts the next block before its predecessor: with blocks [-3, 1] on 2 cells it yields the starts [0, -2], and fillWith writes cell -2, which panics. The solver, Grid.SolveComplete and Patterns.PatternsSolvable therefore require non-negative patterns, which is all that pattern.go derives.
- Non-square puzzles. tryRows and tryColumns take a row's length from s.n and a column's from s.m (see Findings). So the solver methods require as many rows as columns, and the grid functions of module Grid are defined on square grids.
- Solver.Solver.Solve: the Go grid is a slice of row slices made by `make`. The model uses one two-dimensional array, with the ghost `cells` mirroring it.
- Nonogram.Nonogram.Fill, Clear and Get: on a grid that is not square their bit can lie outside the words, where the source panics. The model requires the addressed word to exist, and states the picture effect only on square grids (see Findings).
- Patterns.RowFillPattern, Patterns.ColumnFillPattern, Patterns.FillPatterns: require a square Nonogram, for the same reason (they read cells with Get); a negative size, where `make` panics, is excluded.
- Nonogram.Nonogram.constructor requires EncodedSize(n, m) ≥ 0, as `make` panics on a negative length.
- The strings are sequences of runes. The UTF-8 encoding of strings.Builder is not modelled.

## Findings

| source | as written | input that shows it | evidently intended | confidence | as-written member | corrected member |
|---|---|---|---|---|---|---|
| nonogram.go:102, 113, 124 | Fill, Clear and Get address cell (i, j) at bit i·n + j, while toString walks rows m cells wide (bit i·m + j) | n = 2, m = 3: Fill(1, 0) sets bit 2, which toString shows as cell (0, 2) | bit i·m + j, distinct for distinct cells | high; not executed | Nonogram.AsWrittenIndexCollides | Nonogram.CellIndexInjective |
| nonogram.go:102 | the word index (i·n + j) / 64 can exceed the EncodedSize(n, m) words | n = 100, m = 1: Fill(99, 0) addresses word 154 of 2 and panics | every cell's bit inside the words | high; not executed | Nonogram.AsWrittenIndexOverruns | Nonogram.WordInRange |
| solver.go:106-112 | tryRows enumerates a row's placements over s.n cells, though a row has s.m cells (tryColumns likewise uses s.m for a column of s.n cells) | rows [[3], [0]], columns [[1], [1], [1]]: the 2 × 3 puzzle whose top row is full; the pattern [3] has no placement in 2 cells, so Solve reports a contradiction | enumerate over the line's own length | high; not executed | Grid.AsWrittenRowWidthContradicts | Grid.LinePassKeepsSolution |
