/**
 * The text that toString writes for a grid of glyphs (nonogram.go:62-95 and
 * solver.go:240-269 share it): one newline-terminated line per row, one
 * glyph per cell, and for a cage size c != 0 a separator line before every
 * row i with i != 0 and i % c == 0 and a bar before every such column.
 *
 * Every function is defined by the piece appended last, as the builder
 * writes it, so that the functions serve as the writing loops' invariants.
 */
module Layout {
  /** The runes of the cage: '┼', '─' and '│'. */
  const Cross: char := '\U{253C}'
  const Dash: char := '\U{2500}'
  const Bar: char := '\U{2502}'

  /** Whether the cage puts a separator before row (or column) k. */
  predicate CageBefore(cage: int, k: int)
  {
    cage != 0 && k != 0 && k % cage == 0
  }

  /** The first k runes of a separator line: a dash per column, a cross before each caged column. */
  function SeparatorCells(cage: int, k: nat): seq<char>
  {
    if k == 0 then []
    else SeparatorCells(cage, k - 1) + (if CageBefore(cage, k - 1) then [Cross] else []) + [Dash]
  }

  /** The separator line, newline included, written before row i of a grid `width` cells wide. */
  function Separator(cage: int, i: int, width: nat): seq<char>
  {
    if CageBefore(cage, i) then SeparatorCells(cage, width) + ['\n'] else []
  }

  /** The text of the first j glyphs of a row, a bar before each caged column. */
  function RowText(glyphs: seq<char>, cage: int, j: nat): seq<char>
    requires j <= |glyphs|
  {
    if j == 0 then []
    else RowText(glyphs, cage, j - 1) + (if CageBefore(cage, j - 1) then [Bar] else []) + [glyphs[j - 1]]
  }

  /** The text of the first k rows of a grid of glyphs `width` cells wide. */
  function Render(rows: seq<seq<char>>, width: nat, cage: int, k: nat): seq<char>
    requires k <= |rows|
  {
    if k == 0 then []
    else
      Render(rows, width, cage, k - 1) + Separator(cage, k - 1, width)
      + RowText(rows[k - 1], cage, |rows[k - 1]|) + ['\n']
  }

  /**
   * The separator loop that both toString methods run before a caged row
   * (nonogram.go:67-74, solver.go:243-250): a dash per column, a cross
   * before each caged column, then a newline.
   */
  method WriteSeparator(b0: seq<char>, cage: int, width: nat) returns (b: seq<char>)
    ensures b == b0 + SeparatorCells(cage, width) + ['\n']
  {
    b := b0;
    for k := 0 to width
      invariant b == b0 + SeparatorCells(cage, k)
    {
      if CageBefore(cage, k) {
        b := b + [Cross];
      }
      b := b + [Dash];
    }
    b := b + ['\n'];
  }

  /** s without the rune c. */
  function Without(s: seq<char>, c: char): seq<char>
  {
    if s == [] then []
    else Without(s[..|s| - 1], c) + (if s[|s| - 1] == c then [] else [s[|s| - 1]])
  }

  lemma WithoutSnoc(s: seq<char>, x: char, c: char)
    ensures Without(s + [x], c) == Without(s, c) + (if x == c then [] else [x])
  {
    assert (s + [x])[..|s|] == s;
  }

  // ---------------------------------------------------------------------
  // What the text says.
  // ---------------------------------------------------------------------

  /** Taking the bars out of a row's text leaves its glyphs, in order. */
  lemma {:induction false} RowTextGlyphs(glyphs: seq<char>, cage: int, j: nat)
    requires j <= |glyphs| && Bar !in glyphs
    ensures Without(RowText(glyphs, cage, j), Bar) == glyphs[..j]
  {
    if j > 0 {
      var prev := RowText(glyphs, cage, j - 1);
      var bar := if CageBefore(cage, j - 1) then [Bar] else [];
      var g := glyphs[j - 1];
      RowTextGlyphs(glyphs, cage, j - 1);
      assert Without(prev + bar, Bar) == Without(prev, Bar) by {
        if CageBefore(cage, j - 1) {
          WithoutSnoc(prev, Bar, Bar);
        } else {
          assert prev + bar == prev;
        }
      }
      assert g != Bar by {
        assert g in glyphs;
      }
      WithoutSnoc(prev + bar, g, Bar);
      assert glyphs[..j] == glyphs[..j - 1] + [g];
    }
  }

  /** A separator line holds one dash per column and, besides them, only crosses. */
  lemma {:induction false} SeparatorDashes(cage: int, k: nat)
    ensures Without(SeparatorCells(cage, k), Cross) == seq(k, _ => Dash)
  {
    if k > 0 {
      var prev := SeparatorCells(cage, k - 1);
      SeparatorDashes(cage, k - 1);
      if CageBefore(cage, k - 1) {
        assert SeparatorCells(cage, k) == prev + [Cross] + [Dash];
        WithoutSnoc(prev, Cross, Cross);
        WithoutSnoc(prev + [Cross], Dash, Cross);
      } else {
        assert SeparatorCells(cage, k) == prev + [Dash];
        WithoutSnoc(prev, Dash, Cross);
      }
      assert seq(k, _ => Dash) == seq(k - 1, _ => Dash) + [Dash];
    }
  }

  /** Without a cage a row's text is its glyphs. */
  lemma {:induction false} PlainRowText(glyphs: seq<char>, j: nat)
    requires j <= |glyphs|
    ensures RowText(glyphs, 0, j) == glyphs[..j]
  {
    if j > 0 {
      PlainRowText(glyphs, j - 1);
      assert glyphs[..j] == glyphs[..j - 1] + [glyphs[j - 1]];
    }
  }

  /** How many of the columns 0 .. j - 1 the cage puts a bar before. */
  function BarsBefore(cage: int, j: nat): nat
  {
    if j == 0 then 0 else BarsBefore(cage, j - 1) + (if CageBefore(cage, j - 1) then 1 else 0)
  }

  /** The index of glyph k in the text of its row: k plus the bars up to and including its own. */
  function GlyphAt(cage: int, k: nat): nat
  {
    k + BarsBefore(cage, k + 1)
  }

  /**
   * The text of j glyphs holds each glyph k at GlyphAt(cage, k), and the rune
   * just before glyph k (k > 0) is a bar exactly when the cage puts one
   * before column k.
   */
  lemma {:induction false} RowTextCage(glyphs: seq<char>, cage: int, j: nat)
    requires j <= |glyphs| && Bar !in glyphs
    ensures |RowText(glyphs, cage, j)| == j + BarsBefore(cage, j)
    ensures forall k :: 0 <= k < j ==>
      GlyphAt(cage, k) < |RowText(glyphs, cage, j)| && RowText(glyphs, cage, j)[GlyphAt(cage, k)] == glyphs[k]
    ensures forall k :: 0 < k < j ==>
      (RowText(glyphs, cage, j)[GlyphAt(cage, k) - 1] == Bar <==> CageBefore(cage, k))
  {
    if j > 0 {
      var prev := RowText(glyphs, cage, j - 1);
      var t := RowText(glyphs, cage, j);
      RowTextCage(glyphs, cage, j - 1);
      assert t == prev + (if CageBefore(cage, j - 1) then [Bar] else []) + [glyphs[j - 1]];
      forall k | 0 <= k < j
        ensures GlyphAt(cage, k) < |t| && t[GlyphAt(cage, k)] == glyphs[k]
      {
        if k < j - 1 {
          assert t[GlyphAt(cage, k)] == prev[GlyphAt(cage, k)];
        }
      }
      forall k | 0 < k < j
        ensures t[GlyphAt(cage, k) - 1] == Bar <==> CageBefore(cage, k)
      {
        if k < j - 1 {
          assert t[GlyphAt(cage, k) - 1] == prev[GlyphAt(cage, k) - 1];
        } else if !CageBefore(cage, k) {
          assert t[GlyphAt(cage, k) - 1] == prev[GlyphAt(cage, k - 1)] == glyphs[k - 1];
          assert glyphs[k - 1] in glyphs;
        }
      }
    }
  }

  /** With a positive cage c, glyph k of a row sits at k + k / c. */
  lemma {:induction false} GlyphAtPositive(cage: int, k: nat)
    requires cage > 0
    ensures GlyphAt(cage, k) == k + k / cage
  {
    if k > 0 {
      GlyphAtPositive(cage, k - 1);
      var q, r := (k - 1) / cage, (k - 1) % cage;
      assert k - 1 == q * cage + r && 0 <= r < cage;
      assert GlyphAt(cage, k) == GlyphAt(cage, k - 1) + 1 + (if CageBefore(cage, k) then 1 else 0);
      if r == cage - 1 {
        DivisionOf(k, cage, q + 1, 0);
        assert CageBefore(cage, k);
      } else {
        DivisionOf(k, cage, q, r + 1);
        assert !CageBefore(cage, k);
      }
    } else {
      DivisionOf(0, cage, 0, 0);
      assert BarsBefore(cage, 1) == 0;
    }
  }

  lemma DivisionOf(a: int, d: int, q: int, r: int)
    requires d > 0 && a == q * d + r && 0 <= r < d
    ensures a / d == q && a % d == r
  {
    var q', r' := a / d, a % d;
    assert a == q' * d + r' && 0 <= r' < d;
    MultipleAtLeast(q' - q, d);
    MultipleAtLeast(q - q', d);
    assert (q' - q) * d == q' * d - q * d;
  }

  lemma {:induction false} MultipleAtLeast(x: int, d: int)
    requires d > 0
    ensures x >= 1 ==> x * d >= d
    decreases if x < 0 then 0 else x
  {
    if x > 1 {
      MultipleAtLeast(x - 1, d);
      assert x * d == (x - 1) * d + d;
    }
  }

  /** A separator line lines up with the rows below it: a cross exactly above each bar. */
  lemma {:induction false} SeparatorAligned(glyphs: seq<char>, cage: int, j: nat)
    requires j <= |glyphs| && Bar !in glyphs
    ensures |SeparatorCells(cage, j)| == |RowText(glyphs, cage, j)|
    ensures forall p :: 0 <= p < |SeparatorCells(cage, j)| ==>
      (SeparatorCells(cage, j)[p] == Cross <==> RowText(glyphs, cage, j)[p] == Bar)
  {
    if j > 0 {
      var sep, row := SeparatorCells(cage, j), RowText(glyphs, cage, j);
      var ps, pr := SeparatorCells(cage, j - 1), RowText(glyphs, cage, j - 1);
      SeparatorAligned(glyphs, cage, j - 1);
      assert glyphs[j - 1] in glyphs;
      forall p | 0 <= p < |sep|
        ensures sep[p] == Cross <==> row[p] == Bar
      {
        if p < |ps| {
          assert sep[p] == ps[p] && row[p] == pr[p];
        }
      }
    }
  }

  /** The text of the first i rows is a prefix of the text of the first k. */
  lemma {:induction false} RenderPrefix(rows: seq<seq<char>>, width: nat, cage: int, i: nat, k: nat)
    requires i <= k <= |rows|
    ensures Render(rows, width, cage, i) <= Render(rows, width, cage, k)
    decreases k
  {
    if i < k {
      RenderPrefix(rows, width, cage, i, k - 1);
    }
  }

  /** A separator line starts with a dash. */
  lemma {:induction false} SeparatorStart(cage: int, k: nat)
    requires k > 0
    ensures SeparatorCells(cage, k)[0] == Dash
  {
    if k > 1 {
      SeparatorStart(cage, k - 1);
    }
  }

  /**
   * Row i is written as its separator line, if any, then its glyphs and a
   * newline; when the glyphs hold no dash, the group starts with a dash
   * exactly when the cage puts a separator before row i.
   */
  lemma RowGroupStart(glyphs: seq<char>, width: nat, cage: int, i: nat)
    requires width > 0 && |glyphs| > 0 && Dash !in glyphs && Bar !in glyphs
    ensures (Separator(cage, i, width) + RowText(glyphs, cage, |glyphs|) + ['\n'])[0] == Dash <==> CageBefore(cage, i)
  {
    if CageBefore(cage, i) {
      SeparatorStart(cage, width);
    } else {
      RowTextCage(glyphs, cage, |glyphs|);
      assert BarsBefore(cage, 1) == 0;
      assert glyphs[0] in glyphs;
    }
  }

  /**
   * In the text of k rows, the runes of row i are its separator line, if
   * any, then its glyphs and a newline; when the glyphs hold no dash, a
   * separator line comes first exactly when the cage puts one before row i.
   */
  lemma CagedRenderRow(rows: seq<seq<char>>, width: nat, cage: int, i: nat, k: nat)
    requires i < k <= |rows| && width > 0 && |rows[i]| > 0
    requires Dash !in rows[i] && Bar !in rows[i]
    ensures |Render(rows, width, cage, i)| < |Render(rows, width, cage, i + 1)| <= |Render(rows, width, cage, k)|
    ensures Render(rows, width, cage, k)[|Render(rows, width, cage, i)|..|Render(rows, width, cage, i + 1)|]
      == Separator(cage, i, width) + RowText(rows[i], cage, |rows[i]|) + ['\n']
    ensures Render(rows, width, cage, k)[|Render(rows, width, cage, i)|] == Dash <==> CageBefore(cage, i)
  {
    var before, upto := Render(rows, width, cage, i), Render(rows, width, cage, i + 1);
    var group := Separator(cage, i, width) + RowText(rows[i], cage, |rows[i]|) + ['\n'];
    assert upto == before + group;
    RenderPrefix(rows, width, cage, i + 1, k);
    RowGroupStart(rows[i], width, cage, i);
    SliceOfPrefix(Render(rows, width, cage, k), before, group);
  }

  lemma SliceOfPrefix(all: seq<char>, before: seq<char>, group: seq<char>)
    requires before + group <= all && |group| > 0
    ensures all[|before|..|before + group|] == group && all[|before|] == group[0]
  {
    assert all[..|before + group|] == before + group;
  }

  /** Where line i of a plain rendering of rows `width` glyphs wide starts: i * (width + 1). */
  function LineStart(i: nat, width: nat): nat
  {
    if i == 0 then 0 else LineStart(i - 1, width) + width + 1
  }

  lemma {:induction false} LineStartAfter(i: nat, k: nat, width: nat)
    requires i < k
    ensures LineStart(i, width) + width + 1 <= LineStart(k, width)
    decreases k
  {
    if i < k - 1 {
      LineStartAfter(i, k - 1, width);
    }
  }

  lemma {:induction false} PlainRenderLength(rows: seq<seq<char>>, width: nat, k: nat)
    requires k <= |rows|
    requires forall i :: 0 <= i < |rows| ==> |rows[i]| == width
    ensures |Render(rows, width, 0, k)| == LineStart(k, width)
  {
    if k > 0 {
      PlainRenderLength(rows, width, k - 1);
      PlainRowText(rows[k - 1], width);
      assert rows[k - 1][..width] == rows[k - 1];
    }
  }

  /** Rune j of line i of a plain rendering: glyph j of row i, or the newline after the row. */
  lemma {:induction false} PlainRenderAt(rows: seq<seq<char>>, width: nat, k: nat, i: nat, j: nat)
    requires k <= |rows| && i < k && j <= width
    requires forall i :: 0 <= i < |rows| ==> |rows[i]| == width
    ensures LineStart(i, width) + j < |Render(rows, width, 0, k)|
    ensures Render(rows, width, 0, k)[LineStart(i, width) + j] == if j < width then rows[i][j] else '\n'
  {
    var prev := Render(rows, width, 0, k - 1);
    PlainRenderLength(rows, width, k - 1);
    PlainRowText(rows[k - 1], width);
    assert rows[k - 1][..width] == rows[k - 1];
    assert Render(rows, width, 0, k) == prev + rows[k - 1] + ['\n'];
    if i < k - 1 {
      PlainRenderAt(rows, width, k - 1, i, j);
      LineStartAfter(i, k - 1, width);
    }
  }

  /**
   * Without a cage, the text of k rows of `width` glyphs has k lines of
   * width + 1 runes: line i holds the glyphs of row i and a newline.
   */
  lemma PlainRender(rows: seq<seq<char>>, width: nat, k: nat)
    requires k <= |rows|
    requires forall i :: 0 <= i < |rows| ==> |rows[i]| == width
    ensures |Render(rows, width, 0, k)| == LineStart(k, width)
    ensures forall i, j :: 0 <= i < k && 0 <= j < width ==>
      LineStart(i, width) + j < |Render(rows, width, 0, k)| && Render(rows, width, 0, k)[LineStart(i, width) + j] == rows[i][j]
    ensures forall i :: 0 <= i < k ==>
      LineStart(i, width) + width < |Render(rows, width, 0, k)| && Render(rows, width, 0, k)[LineStart(i, width) + width] == '\n'
  {
    PlainRenderLength(rows, width, k);
    forall i, j | 0 <= i < k && 0 <= j <= width
      ensures LineStart(i, width) + j < |Render(rows, width, 0, k)|
      ensures Render(rows, width, 0, k)[LineStart(i, width) + j] == if j < width then rows[i][j] else '\n'
    {
      PlainRenderAt(rows, width, k, i, j);
    }
  }
}
