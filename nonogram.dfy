/**
 * The bit-packed picture of nonogram.go: an n × m grid of cells, one bit per
 * cell, packed into 64-bit words (numBits, nonogram.go:11), 1 for a filled
 * cell and 0 for an empty one; cell bit k is bit k % 64 of word k / 64.
 *
 * The words are read as a picture in the order toString walks them, row
 * after row of m cells; Fill, Clear and Get address the bits as the source
 * writes them, which agrees with that order on square grids only.
 */
module Nonogram {
  import opened Wrappers
  import opened Layout

  /** 1<<numBits - 1: the word with every bit set. */
  const AllOnes: bv64 := 0xFFFF_FFFF_FFFF_FFFF

  /** ErrInvalidSize and ErrInvalidGrid (nonogram.go:8-9). */
  datatype Error = InvalidSize | InvalidGrid

  /** Integer division as Go performs it: truncated toward zero. */
  function Quot(a: int, b: int): int
    requires b > 0
  {
    if a >= 0 then a / b else -((-a) / b)
  }

  /** EncodedSize (nonogram.go:57-59): (n * m + 63) / 64 with Go's truncating division. */
  function EncodedSize(n: int, m: int): int
  {
    Quot(n * m + 64 - 1, 64)
  }

  /**
   * EncodedSize(n, m) is the fewest words that hold n * m bits; it is
   * negative, so that make panics in New, exactly when n * m <= -127.
   */
  lemma EncodedSizeSpec(n: int, m: int)
    ensures n * m >= 0 ==> EncodedSize(n, m) >= 0 && 64 * EncodedSize(n, m) >= n * m && 64 * (EncodedSize(n, m) - 1) < n * m
    ensures EncodedSize(n, m) < 0 <==> n * m <= -127
  {
  }

  // ---------------------------------------------------------------------
  // Bits of words.
  // ---------------------------------------------------------------------

  /** Bit b of word x. */
  predicate WordBit(x: bv64, b: bv7)
    requires b < 64
  {
    (x >> b) & 1 == 1
  }

  lemma OrBit(x: bv64, b: bv7, c: bv7)
    requires b < 64 && c < 64
    ensures WordBit(x | (1 << b), c) == (c == b || WordBit(x, c))
  {
  }

  lemma AndNotBit(x: bv64, b: bv7, c: bv7)
    requires b < 64 && c < 64
    ensures WordBit(x & (AllOnes ^ (1 << b)), c) == (c != b && WordBit(x, c))
  {
  }

  /** bit := k % numBits: the position of bit k inside its word, as a shift amount. */
  function Pos(k: nat): (b: bv7)
    ensures b < 64
  {
    (k % 64) as bv7
  }

  lemma PosRoundTrip(k: nat)
    ensures Pos(k) as int == k % 64
  {
    SmallRoundTrip(k % 64);
  }

  lemma SmallRoundTrip(r: int)
    requires 0 <= r < 64
    ensures (r as bv7) as int == r
  {
    // splitting the range keeps each conversion the solver checks small
    if r < 32 {
      if r < 16 { } else { }
    } else {
      if r < 48 { } else { }
    }
  }

  /** Two bits are the same bit when they share both word and position. */
  lemma SameBit(k: nat, l: nat)
    requires k / 64 == l / 64
    ensures k == l <==> Pos(k) == Pos(l)
  {
    PosRoundTrip(k);
    PosRoundTrip(l);
  }

  /** Whether cell k of the packed words is filled: bit k % 64 of word k / 64. */
  predicate BitOf(w: seq<bv64>, k: int)
  {
    0 <= k && k / 64 < |w| && WordBit(w[k / 64], Pos(k))
  }

  /** The word x with bit b set, x | 1<<b (v), or cleared, x & (1<<64 - 1 ^ 1<<b) (!v), as Fill and Clear write it (nonogram.go:105, 116). */
  function SetWordBit(x: bv64, b: bv7, v: bool): bv64
    requires b < 64
  {
    if v then x | (1 << b) else x & (AllOnes ^ (1 << b))
  }

  /** The words with bit k set (v) or cleared (!v). */
  function SetBit(w: seq<bv64>, k: nat, v: bool): seq<bv64>
    requires k / 64 < |w|
  {
    w[k / 64 := SetWordBit(w[k / 64], Pos(k), v)]
  }

  lemma SetWordBitSpec(x: bv64, b: bv7, v: bool, c: bv7)
    requires b < 64 && c < 64
    ensures WordBit(SetWordBit(x, b, v), c) == if c == b then v else WordBit(x, c)
  {
    if v {
      OrBit(x, b, c);
    } else {
      AndNotBit(x, b, c);
    }
  }

  lemma SetThenSet(x: bv64, b: bv7)
    requires b < 64
    ensures SetWordBit(SetWordBit(x, b, true), b, true) == SetWordBit(x, b, true)
  {
  }

  lemma SetThenClear(x: bv64, b: bv7)
    requires b < 64
    ensures SetWordBit(SetWordBit(x, b, true), b, false) == SetWordBit(x, b, false)
  {
  }

  lemma ClearThenSet(x: bv64, b: bv7)
    requires b < 64
    ensures SetWordBit(SetWordBit(x, b, false), b, true) == SetWordBit(x, b, true)
  {
    MaskThenOr(x, 1 << b);
  }

  lemma MaskThenOr(x: bv64, y: bv64)
    ensures (x & (AllOnes ^ y)) | y == x | y
  {
  }

  lemma ClearThenClear(x: bv64, b: bv7)
    requires b < 64
    ensures SetWordBit(SetWordBit(x, b, false), b, false) == SetWordBit(x, b, false)
  {
  }

  /** Setting or clearing bit k changes bit k to v and no other bit. */
  lemma SetBitSpec(w: seq<bv64>, k: nat, v: bool, l: int)
    requires k / 64 < |w|
    ensures |SetBit(w, k, v)| == |w|
    ensures BitOf(SetBit(w, k, v), l) == if l == k then v else BitOf(w, l)
  {
    var r := SetBit(w, k, v);
    if 0 <= l && l / 64 == k / 64 {
      SameBit(k, l);
      SetWordBitSpec(w[k / 64], Pos(k), v, Pos(l));
    }
  }

  /** The last of two writes to the same bit wins: Fill and Clear are idempotent and each undoes the other. */
  lemma SetBitTwice(w: seq<bv64>, k: nat, u: bool, v: bool)
    requires k / 64 < |w|
    ensures SetBit(SetBit(w, k, u), k, v) == SetBit(w, k, v)
  {
    var x := w[k / 64];
    if u && v {
      SetThenSet(x, Pos(k));
    } else if u {
      SetThenClear(x, Pos(k));
    } else if v {
      ClearThenSet(x, Pos(k));
    } else {
      ClearThenClear(x, Pos(k));
    }
  }

  // ---------------------------------------------------------------------
  // Cells and bits.
  // ---------------------------------------------------------------------

  /**
   * The bit of cell (i, j) when the words hold rows of `width` cells one
   * after the other: i * width + j (CellIndexProduct), written as a sum so
   * that the multiplication stays out of the proofs that do not need it.
   */
  function CellIndex(width: nat, i: nat, j: nat): nat
  {
    if i == 0 then j else CellIndex(width, i - 1, j) + width
  }

  lemma {:induction false} CellIndexProduct(width: nat, i: nat, j: nat)
    ensures CellIndex(width, i, j) == i * width + j
  {
    if i > 0 {
      CellIndexProduct(width, i - 1, j);
      assert i * width == (i - 1) * width + width;
    }
  }

  /**
   * The bit that Fill, Clear and Get use for cell (i, j) (nonogram.go:102,
   * 113, 124): i * n + j, rows taken n cells wide where toString takes them
   * m cells wide.
   */
  function AsWrittenIndex(n: nat, i: nat, j: nat): nat
  {
    CellIndex(n, i, j)
  }

  lemma {:induction false} MulLess(i: nat, h: nat, w: nat)
    requires i < h
    ensures i * w + w <= h * w
    decreases h
  {
    if i < h - 1 {
      MulLess(i, h - 1, w);
    }
    assert h * w == (h - 1) * w + w;
  }

  /** In a grid of h rows of `width` cells, distinct cells have distinct bits, all below h * width. */
  lemma CellIndexInjective(h: nat, width: nat, i: nat, j: nat, a: nat, b: nat)
    requires i < h && a < h && j < width && b < width
    ensures CellIndex(width, i, j) < h * width
    ensures CellIndex(width, i, j) == CellIndex(width, a, b) <==> i == a && j == b
  {
    CellIndexProduct(width, i, j);
    CellIndexProduct(width, a, b);
    MulLess(i, h, width);
    if i < a {
      MulLess(i, a, width);
    } else if a < i {
      MulLess(a, i, width);
    }
  }

  /** The bit of every cell of an n × m grid lies in one of its EncodedSize(n, m) words. */
  lemma WordInRange(n: nat, m: nat, i: nat, j: nat)
    requires i < n && j < m
    ensures CellIndex(m, i, j) / 64 < EncodedSize(n, m)
  {
    EncodedSizeSpec(n, m);
    CellIndexInjective(n, m, i, j, i, j);
  }

  lemma {:induction false} CellIndexNextCell(width: nat, i: nat, j: nat)
    ensures CellIndex(width, i, j + 1) == CellIndex(width, i, j) + 1
  {
    if i > 0 {
      CellIndexNextCell(width, i - 1, j);
    }
  }

  lemma CellIndexNextRow(width: nat, i: nat)
    ensures CellIndex(width, i, width) == CellIndex(width, i + 1, 0)
  {
    CellIndexProduct(width, i, width);
    CellIndexProduct(width, i + 1, 0);
  }

  lemma DivMod(k: nat, idx: nat, bit: nat)
    requires k == idx * 64 + bit && bit < 64
    ensures k / 64 == idx && k % 64 == bit
  {
  }

  /** The picture that the words hold for h rows of `width` cells, read in toString's order. */
  function PictureOf(w: seq<bv64>, h: nat, width: nat): (pic: seq<seq<bool>>)
    ensures |pic| == h && forall i :: 0 <= i < h ==> |pic[i]| == width
  {
    seq(h, i requires 0 <= i < h => seq(width, j requires 0 <= j < width => BitOf(w, CellIndex(width, i, j))))
  }

  /** Writing the bit of cell (i, j) changes that cell of the picture and no other. */
  lemma PictureSetBit(w: seq<bv64>, h: nat, width: nat, i: nat, j: nat, v: bool)
    requires i < h && j < width && CellIndex(width, i, j) / 64 < |w|
    ensures PictureOf(SetBit(w, CellIndex(width, i, j), v), h, width)
      == PictureOf(w, h, width)[i := PictureOf(w, h, width)[i][j := v]]
  {
    var k := CellIndex(width, i, j);
    var p := PictureOf(w, h, width);
    var q := PictureOf(SetBit(w, k, v), h, width);
    var p' := p[i := p[i][j := v]];
    forall a | 0 <= a < h
      ensures q[a] == p'[a]
    {
      forall b | 0 <= b < width
        ensures q[a][b] == p'[a][b]
      {
        SetBitSpec(w, k, v, CellIndex(width, a, b));
        CellIndexInjective(h, width, i, j, a, b);
      }
    }
  }

  /** Words that are all zero hold an empty picture. */
  lemma PictureOfZero(w: seq<bv64>, h: nat, width: nat)
    requires forall k :: 0 <= k < |w| ==> w[k] == 0
    ensures forall i, j :: 0 <= i < h && 0 <= j < width ==> !PictureOf(w, h, width)[i][j]
  {
    forall i, j | 0 <= i < h && 0 <= j < width
      ensures !BitOf(w, CellIndex(width, i, j))
    {
      var k := CellIndex(width, i, j);
      if k / 64 < |w| {
        assert w[k / 64] == 0;
      }
    }
  }

  /** The glyph of each cell: fill for a filled cell, blank for an empty one. */
  function Glyphs(pic: seq<seq<bool>>, fill: char, blank: char): (r: seq<seq<char>>)
    ensures |r| == |pic| && forall i :: 0 <= i < |pic| ==> |r[i]| == |pic[i]|
    ensures forall i, j :: 0 <= i < |pic| && 0 <= j < |pic[i]| ==> r[i][j] == if pic[i][j] then fill else blank
  {
    seq(|pic|, i requires 0 <= i < |pic| => seq(|pic[i]|, j requires 0 <= j < |pic[i]| => if pic[i][j] then fill else blank))
  }

  /** Without a cage, line i of the text of a picture shows row i cell by cell, then a newline. */
  lemma PlainText(pic: seq<seq<bool>>, width: nat, fill: char, blank: char, i: nat, j: nat)
    requires forall r :: 0 <= r < |pic| ==> |pic[r]| == width
    requires i < |pic| && j < width
    ensures LineStart(i, width) + width < |Render(Glyphs(pic, fill, blank), width, 0, |pic|)|
    ensures Render(Glyphs(pic, fill, blank), width, 0, |pic|)[LineStart(i, width) + j] == if pic[i][j] then fill else blank
    ensures Render(Glyphs(pic, fill, blank), width, 0, |pic|)[LineStart(i, width) + width] == '\n'
  {
    var gl := Glyphs(pic, fill, blank);
    assert forall r :: 0 <= r < |gl| ==> |gl[r]| == width;
    PlainRenderAt(gl, width, |pic|, i, j);
    PlainRenderAt(gl, width, |pic|, i, width);
  }

  /** toString's word and bit counters step from cell (i, j) to cell (i, j + 1). */
  lemma NextCell(width: nat, i: nat, j: nat, idx: nat, bit: nat)
    requires bit < 64 && idx * 64 + bit == CellIndex(width, i, j)
    ensures var b := (bit + 1) % 64; (if b == 0 then idx + 1 else idx) * 64 + b == CellIndex(width, i, j + 1)
  {
    CellIndexNextCell(width, i, j);
  }

  /** Appending two pieces to a builder appends their concatenation. */
  lemma AppendPiece(b: seq<char>, t: seq<char>, x: seq<char>, y: seq<char>)
    ensures b + t + x + y == b + (t + x + y)
  {
  }

  /** The 2 × 3 grid on which Fill(1, 0) (bit 1 * 2 + 0) lands on the bit toString shows as cell (0, 2). */
  lemma AsWrittenIndexCollides()
    ensures AsWrittenIndex(2, 1, 0) == AsWrittenIndex(2, 0, 2) == CellIndex(3, 0, 2)
    ensures EncodedSize(2, 3) == 1
    ensures PictureOf(SetBit([0], AsWrittenIndex(2, 1, 0), true), 2, 3)[0][2]
    ensures !PictureOf(SetBit([0], AsWrittenIndex(2, 1, 0), true), 2, 3)[1][0]
  {
    PictureSetBit([0], 2, 3, 0, 2, true);
    PictureOfZero([0], 2, 3);
  }

  /** The 100 × 1 grid on which Fill(99, 0) addresses word 154 of a grid of 2 words, where Go panics. */
  lemma AsWrittenIndexOverruns()
    ensures EncodedSize(100, 1) == 2
    ensures AsWrittenIndex(100, 99, 0) / 64 == 154
  {
    CellIndexProduct(100, 99, 0);
  }

  /** On a square grid the source's index and toString's index are the same bit. */
  lemma SquareIndex(n: nat, i: nat, j: nat)
    requires i < n && j < n
    ensures AsWrittenIndex(n, i, j) == CellIndex(n, i, j)
    ensures AsWrittenIndex(n, i, j) / 64 < EncodedSize(n, n)
  {
    WordInRange(n, n, i, j);
  }

  // ---------------------------------------------------------------------
  // The Nonogram object.
  // ---------------------------------------------------------------------

  class Nonogram {
    var n: int
    var m: int
    var grid: array<bv64>

    ghost predicate Valid()
      reads this
    {
      grid.Length == EncodedSize(n, m)
    }

    /** The rows that toString walks: none when n is negative. */
    function Height(): nat
      reads this
    {
      if n < 0 then 0 else n
    }

    /** The columns that toString walks: none when m is negative. */
    function Width(): nat
      reads this
    {
      if m < 0 then 0 else m
    }

    predicate InGrid(i: int, j: int)
      reads this
    {
      0 <= i < n && 0 <= j < m
    }

    /** The grid as toString reads it. */
    ghost function Picture(): (pic: seq<seq<bool>>)
      reads this, grid
    {
      PictureOf(grid[..], Height(), Width())
    }

    /** Fill, Clear and Get of cell (i, j) reach a word of the grid (always so on a square grid). */
    ghost predicate Addressable(i: int, j: int)
      reads this
    {
      InGrid(i, j) ==> AsWrittenIndex(n, i, j) / 64 < grid.Length
    }

    /** New (nonogram.go:21-23): an n × m picture with every cell empty. */
    constructor (n0: int, m0: int)
      requires EncodedSize(n0, m0) >= 0
      ensures n == n0 && m == m0 && fresh(grid) && Valid()
      ensures forall k :: 0 <= k < grid.Length ==> grid[k] == 0
      ensures forall i, j :: 0 <= i < Height() && 0 <= j < Width() ==> !Picture()[i][j]
    {
      n := n0;
      m := m0;
      grid := new bv64[EncodedSize(n0, m0)](_ => 0);
      new;
      PictureOfZero(grid[..], Height(), Width());
    }

    /** The Nonogram that FromGrid returns (nonogram.go:34-38): it shares the caller's words. */
    constructor Wrap(n0: int, m0: int, words: array<bv64>)
      requires words.Length == EncodedSize(n0, m0)
      ensures n == n0 && m == m0 && grid == words && Valid()
    {
      n := n0;
      m := m0;
      grid := words;
    }

    /** Fill (nonogram.go:97-106): sets the bit of cell (i, j); a cell outside the grid changes nothing. */
    method Fill(i: int, j: int)
      requires Valid() && Addressable(i, j)
      modifies grid
      ensures InGrid(i, j) ==> grid[..] == SetBit(old(grid[..]), AsWrittenIndex(n, i, j), true)
      ensures !InGrid(i, j) ==> grid[..] == old(grid[..])
      ensures n == m && InGrid(i, j) ==> Picture() == old(Picture())[i := old(Picture())[i][j := true]]
    {
      if !(0 <= i && i < n) || !(0 <= j && j < m) {
        return;
      }
      var k := i * n + j;
      CellIndexProduct(n, i, j);
      var numberIdx := k / 64;
      var bit := Pos(k);
      ghost var w := grid[..];
      grid[numberIdx] := SetWordBit(grid[numberIdx], bit, true);
      assert grid[..] == w[numberIdx := grid[numberIdx]];
      assert grid[..] == SetBit(w, k, true);
      if n == m {
        assert CellIndex(Width(), i, j) == k;
        PictureSetBit(w, Height(), Width(), i, j, true);
        assert old(Picture()) == PictureOf(w, Height(), Width());
      }
    }

    /** Clear (nonogram.go:108-117): clears the bit of cell (i, j); a cell outside the grid changes nothing. */
    method Clear(i: int, j: int)
      requires Valid() && Addressable(i, j)
      modifies grid
      ensures InGrid(i, j) ==> grid[..] == SetBit(old(grid[..]), AsWrittenIndex(n, i, j), false)
      ensures !InGrid(i, j) ==> grid[..] == old(grid[..])
      ensures n == m && InGrid(i, j) ==> Picture() == old(Picture())[i := old(Picture())[i][j := false]]
    {
      if !(0 <= i && i < n) || !(0 <= j && j < m) {
        return;
      }
      var k := i * n + j;
      CellIndexProduct(n, i, j);
      var numberIdx := k / 64;
      var bit := Pos(k);
      ghost var w := grid[..];
      grid[numberIdx] := SetWordBit(grid[numberIdx], bit, false);
      assert grid[..] == w[numberIdx := grid[numberIdx]];
      assert grid[..] == SetBit(w, k, false);
      if n == m {
        assert CellIndex(Width(), i, j) == k;
        PictureSetBit(w, Height(), Width(), i, j, false);
        assert old(Picture()) == PictureOf(w, Height(), Width());
      }
    }

    /**
     * Get (nonogram.go:119-128): the bit of cell (i, j), false outside the
     * grid; on a square grid that is the cell of the picture.
     */
    function Get(i: int, j: int): (r: bool)
      reads this, grid
      requires Valid() && Addressable(i, j)
      ensures r <==> InGrid(i, j) && BitOf(grid[..], AsWrittenIndex(n, i, j))
      ensures n == m ==> (r <==> InGrid(i, j) && Picture()[i][j])
    {
      if !(0 <= i && i < n) || !(0 <= j && j < m) then false
      else
        var k := i * n + j;
        CellIndexProduct(n, i, j);
        var numberIdx := k / 64;
        var bit := Pos(k);
        assert grid[..][numberIdx] == grid[numberIdx];
        WordBit(grid[numberIdx], bit)
    }

    /**
     * toString (nonogram.go:62-95): the words read bit after bit, row after
     * row, fill for a set bit and blank for a clear one, laid out with the
     * cage as Layout.Render describes.
     */
    method ToString(fill: char, blank: char, cage: int) returns (s: string)
      requires Valid()
      ensures s == Render(Glyphs(Picture(), fill, blank), Width(), cage, Height())
    {
      var b: string := [];
      var bit := 0;
      var idx := 0;
      ghost var gl := Glyphs(Picture(), fill, blank);
      // a range over a negative count runs no iteration
      var rowCount := if n < 0 then 0 else n;
      var colCount := if m < 0 then 0 else m;
      for i := 0 to rowCount
        invariant b == Render(gl, colCount, cage, i)
        invariant 0 <= bit < 64 && idx * 64 + bit == CellIndex(colCount, i, 0)
      {
        ghost var before := b;
        if CageBefore(cage, i) {
          b := WriteSeparator(b, cage, colCount);
        }
        assert b == before + Separator(cage, i, colCount);
        b, idx, bit := WriteRow(b, i, idx, bit, fill, blank, cage);
        CellIndexNextRow(colCount, i);
        b := b + ['\n'];
      }
      s := b;
    }

    /**
     * The inner loop of toString (nonogram.go:80-91): appends the glyphs of
     * row i to b, reading the words from bit `bit` of word idx on.
     */
    method WriteRow(b0: string, i: nat, idx0: nat, bit0: nat, fill: char, blank: char, cage: int)
      returns (b: string, idx: nat, bit: nat)
      requires Valid() && i < Height()
      requires bit0 < 64 && idx0 * 64 + bit0 == CellIndex(Width(), i, 0)
      ensures b == b0 + RowText(Glyphs(Picture(), fill, blank)[i], cage, Width())
      ensures bit < 64 && idx * 64 + bit == CellIndex(Width(), i, Width())
    {
      b, idx, bit := b0, idx0, bit0;
      ghost var row := Glyphs(Picture(), fill, blank)[i];
      var colCount := if m < 0 then 0 else m;
      for j := 0 to colCount
        invariant b == b0 + RowText(row, cage, j)
        invariant 0 <= bit < 64 && idx * 64 + bit == CellIndex(colCount, i, j)
      {
        if CageBefore(cage, j) {
          b := b + [Bar];
        }
        GlyphCell(i, j, idx, bit, fill, blank);
        if WordBit(grid[idx], bit as bv7) {
          b := b + [fill];
        } else {
          b := b + [blank];
        }
        AppendPiece(b0, RowText(row, cage, j), if CageBefore(cage, j) then [Bar] else [], [row[j]]);
        NextCell(colCount, i, j, idx, bit);
        bit := (bit + 1) % 64;
        if bit == 0 {
          idx := idx + 1;
        }
      }
    }

    /** Bit `bit` of word idx, the bit toString reads for cell (i, j), is that cell of the picture. */
    lemma ReadCell(i: nat, j: nat, idx: nat, bit: nat)
      requires Valid() && i < Height() && j < Width()
      requires bit < 64 && idx * 64 + bit == CellIndex(Width(), i, j)
      ensures idx < grid.Length && bit as bv7 == Pos(CellIndex(Width(), i, j))
      ensures Picture()[i][j] == WordBit(grid[idx], bit as bv7)
    {
      WordInRange(n, m, i, j);
      DivMod(CellIndex(Width(), i, j), idx, bit);
      assert grid[..][idx] == grid[idx];
    }

    /** The glyph toString writes for cell (i, j), read from bit `bit` of word idx. */
    lemma GlyphCell(i: nat, j: nat, idx: nat, bit: nat, fill: char, blank: char)
      requires Valid() && i < Height() && j < Width()
      requires bit < 64 && idx * 64 + bit == CellIndex(Width(), i, j)
      ensures idx < grid.Length
      ensures |Glyphs(Picture(), fill, blank)[i]| == Width()
      ensures Glyphs(Picture(), fill, blank)[i][j] == if WordBit(grid[idx], bit as bv7) then fill else blank
    {
      ReadCell(i, j, idx, bit);
    }

    /** String (nonogram.go:41-43): '#' for a filled cell, '.' for an empty one, no cage. */
    method String() returns (s: string)
      requires Valid()
      ensures s == Render(Glyphs(Picture(), '#', '.'), Width(), 0, Height())
    {
      s := ToString('#', '.', 0);
    }

    /** PrettyString (nonogram.go:45-47): '█' for a filled cell, a space for an empty one, no cage. */
    method PrettyString() returns (s: string)
      requires Valid()
      ensures s == Render(Glyphs(Picture(), '\U{2588}', ' '), Width(), 0, Height())
    {
      s := ToString('\U{2588}', ' ', 0);
    }

    /** StringCaged (nonogram.go:49-51): String with a cage every `cage` rows and columns. */
    method StringCaged(cage: int) returns (s: string)
      requires Valid()
      ensures s == Render(Glyphs(Picture(), '#', '.'), Width(), cage, Height())
    {
      s := ToString('#', '.', cage);
    }

    /** PrettyStringCaged (nonogram.go:53-55): PrettyString with a cage every `cage` rows and columns. */
    method PrettyStringCaged(cage: int) returns (s: string)
      requires Valid()
      ensures s == Render(Glyphs(Picture(), '\U{2588}', ' '), Width(), cage, Height())
    {
      s := ToString('\U{2588}', ' ', cage);
    }
  }

  /**
   * FromGrid (nonogram.go:25-39): a Nonogram over the caller's words, or
   * InvalidSize for a size that is not positive, or InvalidGrid for a number
   * of words other than EncodedSize(n, m).
   */
  method FromGrid(n: int, m: int, grid: array<bv64>) returns (nono: Nonogram?, err: Option<Error>)
    ensures n <= 0 || m <= 0 ==> nono == null && err == Some(InvalidSize)
    ensures n > 0 && m > 0 && grid.Length != EncodedSize(n, m) ==> nono == null && err == Some(InvalidGrid)
    ensures n > 0 && m > 0 && grid.Length == EncodedSize(n, m) ==>
      && err == None && nono != null && fresh(nono) && nono.Valid()
      && nono.n == n && nono.m == m && nono.grid == grid
  {
    if n <= 0 || m <= 0 {
      return null, Some(InvalidSize);
    }
    if grid.Length != EncodedSize(n, m) {
      return null, Some(InvalidGrid);
    }
    nono := new Nonogram.Wrap(n, m, grid);
    err := None;
  }
}
