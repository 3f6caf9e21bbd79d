/**
 * Run-length encoding of one line of a finished grid, as pattern.go derives
 * a fill pattern: a running counter of the current run of filled cells, a
 * run appended when a blank cell closes it, and the trailing run (or a lone
 * 0 for a line without any filled cell) appended at the end.
 *
 * The functions are defined by the cell appended last, the way the loop
 * reads the line, so that they serve directly as the loop's invariants.
 */
module Runs {
  import opened Placement

  /** The running `blockSize` counter: the length of the run of filled cells at the end of s. */
  function Trailing(s: seq<bool>): nat
  {
    if s == [] then 0
    else if s[|s| - 1] then Trailing(s[..|s| - 1]) + 1
    else 0
  }

  /** The runs that a blank cell has already closed, in order: what the loop has appended so far. */
  function Completed(s: seq<bool>): seq<int>
  {
    if s == [] then []
    else
      var t := s[..|s| - 1];
      if s[|s| - 1] || Trailing(t) == 0 then Completed(t) else Completed(t) + [Trailing(t)]
  }

  /** The maximal runs of filled cells of s, left to right. */
  function Runs(s: seq<bool>): seq<int>
  {
    if Trailing(s) != 0 then Completed(s) + [Trailing(s)] else Completed(s)
  }

  /** The fill pattern of a line as the loop leaves it after its final step. */
  function Pattern(s: seq<bool>): seq<int>
  {
    if Trailing(s) != 0 || |Completed(s)| == 0 then Completed(s) + [Trailing(s)] else Completed(s)
  }

  /** Number of filled cells of s. */
  function Count(s: seq<bool>): nat
  {
    if s == [] then 0 else Count(s[..|s| - 1]) + (if s[|s| - 1] then 1 else 0)
  }

  /** Where the runs of s start: the start of a run is recorded when a filled cell follows a blank one. */
  function Starts(s: seq<bool>): seq<int>
  {
    if s == [] then []
    else
      var t := s[..|s| - 1];
      if s[|s| - 1] && Trailing(t) == 0 then Starts(t) + [|t|] else Starts(t)
  }

  function Trues(b: nat): seq<bool> { seq(b, _ => true) }

  function Falses(g: nat): seq<bool> { seq(g, _ => false) }

  // ---------------------------------------------------------------------
  // What the derived pattern is.
  // ---------------------------------------------------------------------

  lemma {:induction false} CompletedPositive(s: seq<bool>)
    ensures forall x :: x in Completed(s) ==> x > 0
  {
    if s != [] {
      CompletedPositive(s[..|s| - 1]);
    }
  }

  lemma {:induction false} SumCountsFilled(s: seq<bool>)
    ensures Sum(Completed(s)) + Trailing(s) == Count(s)
  {
    if s != [] {
      var t := s[..|s| - 1];
      SumCountsFilled(t);
      if !s[|s| - 1] && Trailing(t) != 0 {
        assert (Completed(t) + [Trailing(t)])[..|Completed(t)|] == Completed(t);
      }
    }
  }

  lemma {:induction false} NoRunsIffBlank(s: seq<bool>)
    ensures Runs(s) == [] <==> forall k :: 0 <= k < |s| ==> !s[k]
  {
    if s != [] {
      var t := s[..|s| - 1];
      NoRunsIffBlank(t);
      if Runs(s) == [] {
        forall k | 0 <= k < |s|
          ensures !s[k]
        {
          if k < |t| {
            assert s[k] == t[k];
          }
        }
      }
      if forall k :: 0 <= k < |s| ==> !s[k] {
        assert forall k :: 0 <= k < |t| ==> !t[k];
      }
    }
  }

  /**
   * A derived pattern (pattern.go:33-47) is never empty: it is [0] exactly
   * when the line has no filled cell and otherwise the list of maximal runs,
   * all positive; its sum is the number of filled cells.
   */
  lemma PatternShape(s: seq<bool>)
    ensures Pattern(s) == if Runs(s) == [] then [0] else Runs(s)
    ensures |Pattern(s)| >= 1
    ensures Pattern(s) == [0] <==> forall k :: 0 <= k < |s| ==> !s[k]
    ensures forall x :: x in Runs(s) ==> x > 0
    ensures Sum(Pattern(s)) == Count(s)
  {
    CompletedPositive(s);
    NoRunsIffBlank(s);
    SumCountsFilled(s);
    if Trailing(s) != 0 {
      SumAppend(Completed(s), [Trailing(s)]);
      assert [Trailing(s)][..0] == [];
    } else if Completed(s) == [] {
      assert Sum([0]) == Sum([]) + 0;
    }
  }

  // ---------------------------------------------------------------------
  // Round trip: the runs of the line a placement fills are its blocks.
  // ---------------------------------------------------------------------

  lemma TruesSnoc(s: seq<bool>, b: nat)
    requires b > 0
    ensures s + Trues(b) == (s + Trues(b - 1)) + [true]
  {
    assert Trues(b) == Trues(b - 1) + [true];
  }

  /** A filled cell lengthens the trailing run and closes none. */
  lemma SnocTrue(u: seq<bool>)
    ensures Trailing(u + [true]) == Trailing(u) + 1
    ensures Completed(u + [true]) == Completed(u)
  {
    assert (u + [true])[..|u|] == u;
  }

  /** One more cell of a line read: the step of the blockSize loop. */
  lemma ReadStep(line: seq<bool>, k: nat)
    requires k < |line|
    ensures Trailing(line[..k + 1]) == if line[k] then Trailing(line[..k]) + 1 else 0
    ensures Completed(line[..k + 1]) ==
      if line[k] || Trailing(line[..k]) == 0 then Completed(line[..k]) else Completed(line[..k]) + [Trailing(line[..k])]
  {
    assert line[..k + 1][..k] == line[..k];
  }

  lemma {:induction false} AppendTrues(s: seq<bool>, b: nat)
    ensures Trailing(s + Trues(b)) == Trailing(s) + b
    ensures Completed(s + Trues(b)) == Completed(s)
    decreases b
  {
    if b == 0 {
      assert s + Trues(b) == s;
    } else {
      var u := s + Trues(b - 1);
      AppendTrues(s, b - 1);
      TruesSnoc(s, b);
      SnocTrue(u);
    }
  }

  lemma {:induction false} AppendFalses(s: seq<bool>, g: nat)
    requires g >= 1 || Trailing(s) == 0
    ensures Trailing(s + Falses(g)) == 0
    ensures Completed(s + Falses(g)) == Runs(s)
    decreases g
  {
    if g == 0 {
      assert s + Falses(g) == s;
    } else if g == 1 {
      assert (s + Falses(g))[..|s|] == s;
    } else {
      AppendFalses(s, g - 1);
      assert (s + Falses(g))[..|s + Falses(g)| - 1] == s + Falses(g - 1);
    }
  }

  /** A blank gap and a run appended to a line add exactly one run. */
  lemma AppendGapAndRun(s: seq<bool>, g: nat, b: nat)
    requires g >= 1 || Trailing(s) == 0
    requires b >= 1
    ensures Runs(s + Falses(g) + Trues(b)) == Runs(s) + [b]
    ensures Trailing(s + Falses(g) + Trues(b)) == b
  {
    AppendFalses(s, g);
    AppendTrues(s + Falses(g), b);
  }

  ghost predicate Positive(block: seq<int>)
  {
    forall k :: 0 <= k < |block| ==> block[k] > 0
  }

  /** The end of the k-th block of a placement (0 before the first block). */
  ghost function End(n: int, block: seq<int>, p: seq<int>, k: nat): nat
    requires IsPlacement(n, block, p) && Positive(block) && k <= |p|
  {
    if k == 0 then 0
    else
      EndsIncrease(n, block, p, 0, k - 1);
      p[k - 1] + block[k - 1]
  }

  /** The line up to the end of block k is the previous line, a gap and block k. */
  lemma {:induction false} CoverStep(n: int, block: seq<int>, p: seq<int>, k: nat)
    requires IsPlacement(n, block, p) && Positive(block) && k < |p|
    ensures p[k] >= End(n, block, p, k) && block[k] >= 1
    ensures Cover(End(n, block, p, k + 1), p[..k + 1], block[..k + 1])
         == Cover(End(n, block, p, k), p[..k], block[..k]) + Falses(p[k] - End(n, block, p, k)) + Trues(block[k])
  {
    var e, e' := End(n, block, p, k), End(n, block, p, k + 1);
    var pre, pre' := p[..k], p[..k + 1];
    var b, b' := block[..k], block[..k + 1];
    assert p[k] >= e;
    var lhs := Cover(e', pre', b');
    var rhs := Cover(e, pre, b) + Falses(p[k] - e) + Trues(block[k]);
    assert |lhs| == |rhs|;
    forall x | 0 <= x < e'
      ensures lhs[x] == rhs[x]
    {
      CoveredStep(n, block, p, k, x);
    }
  }

  /** Cell x before the end of block k is covered by blocks 0..k exactly when block k or an earlier block covers it. */
  lemma CoveredStep(n: int, block: seq<int>, p: seq<int>, k: nat, x: int)
    requires IsPlacement(n, block, p) && Positive(block) && k < |p|
    requires 0 <= x < p[k] + block[k]
    ensures Covered(p[..k + 1], block[..k + 1], x) <==>
      if x < p[k] then x < End(n, block, p, k) && Covered(p[..k], block[..k], x) else true
  {
    var pre, pre' := p[..k], p[..k + 1];
    var b, b' := block[..k], block[..k + 1];
    if x < p[k] {
      if Covered(pre', b', x) {
        var i :| 0 <= i < |pre'| && pre'[i] <= x < pre'[i] + b'[i];
        assert i < k;
        assert x < End(n, block, p, k) by {
          EndsIncrease(n, block, p, i, k - 1);
        }
        assert Covered(pre, b, x);
      }
      if Covered(pre, b, x) {
        var i :| 0 <= i < |pre| && pre[i] <= x < pre[i] + b[i];
        assert pre'[i] == pre[i] && b'[i] == b[i];
      }
    } else {
      assert pre'[k] <= x < pre'[k] + b'[k];
    }
  }

  /** Beyond the end of the last block nothing is covered. */
  lemma {:induction false} CoverTail(n: nat, block: seq<int>, p: seq<int>)
    requires IsPlacement(n, block, p) && Positive(block)
    ensures End(n, block, p, |p|) <= n
    ensures Cover(n, p, block) == Cover(End(n, block, p, |p|), p, block) + Falses(n - End(n, block, p, |p|))
  {
    var e := End(n, block, p, |p|);
    var lhs := Cover(n, p, block);
    var rhs := Cover(e, p, block) + Falses(n - e);
    forall x | e <= x < n
      ensures !lhs[x]
    {
      if Covered(p, block, x) {
        var i :| 0 <= i < |p| && p[i] <= x < p[i] + block[i];
        EndsIncrease(n, block, p, i, |p| - 1);
      }
    }
    assert lhs == rhs;
  }

  lemma {:induction false} RunsOfPrefix(n: int, block: seq<int>, p: seq<int>, k: nat)
    requires IsPlacement(n, block, p) && Positive(block) && k <= |p|
    ensures Runs(Cover(End(n, block, p, k), p[..k], block[..k])) == block[..k]
    ensures Trailing(Cover(End(n, block, p, k), p[..k], block[..k])) == if k == 0 then 0 else block[k - 1]
  {
    if k == 0 {
      assert Cover(0, p[..0], block[..0]) == [];
    } else {
      RunsOfPrefix(n, block, p, k - 1);
      PrefixStep(n, block, p, k);
    }
  }

  /** The step of RunsOfPrefix: block k - 1 and the gap before it add one run. */
  lemma PrefixStep(n: int, block: seq<int>, p: seq<int>, k: nat)
    requires IsPlacement(n, block, p) && Positive(block) && 0 < k <= |p|
    requires Runs(Cover(End(n, block, p, k - 1), p[..k - 1], block[..k - 1])) == block[..k - 1]
    requires Trailing(Cover(End(n, block, p, k - 1), p[..k - 1], block[..k - 1])) == if k == 1 then 0 else block[k - 2]
    ensures Runs(Cover(End(n, block, p, k), p[..k], block[..k])) == block[..k]
    ensures Trailing(Cover(End(n, block, p, k), p[..k], block[..k])) == block[k - 1]
  {
    CoverStep(n, block, p, k - 1);
    var e := End(n, block, p, k - 1);
    var s := Cover(e, p[..k - 1], block[..k - 1]);
    var g := p[k - 1] - e;
    var b := block[k - 1];
    assert g >= 1 || Trailing(s) == 0 by {
      if k - 1 > 0 {
        assert p[k - 1] >= p[k - 2] + block[k - 2] + 1;
      }
    }
    GapAndRun(Cover(End(n, block, p, k), p[..k], block[..k]), s, g, b, block[..k - 1]);
    assert block[..k - 1] + [b] == block[..k];
  }

  /** AppendGapAndRun for a line known to be s, a gap of g and a run of b. */
  lemma GapAndRun(line: seq<bool>, s: seq<bool>, g: nat, b: nat, pre: seq<int>)
    requires line == s + Falses(g) + Trues(b)
    requires Runs(s) == pre && (g >= 1 || Trailing(s) == 0) && b >= 1
    ensures Runs(line) == pre + [b] && Trailing(line) == b
  {
    AppendGapAndRun(s, g, b);
  }

  /**
   * Round trip (pattern.go:31-46 after solver.go:205-214): run-length
   * deriving the line that a placement of positive blocks fills gives back
   * the blocks.
   */
  lemma RunsOfPlacement(n: nat, block: seq<int>, p: seq<int>)
    requires IsPlacement(n, block, p) && Positive(block)
    ensures Runs(Cover(n, p, block)) == block
    ensures |block| > 0 ==> Pattern(Cover(n, p, block)) == block
  {
    RunsOfPrefix(n, block, p, |p|);
    CoverTail(n, block, p);
    var e := End(n, block, p, |p|);
    assert p[..|p|] == p && block[..|p|] == block;
    var s := Cover(e, p, block);
    assert Runs(s) == block;
    var g := n - e;
    var line := Cover(n, p, block);
    assert line == s + Falses(g);
    if g >= 1 {
      AppendFalses(s, g);
    } else {
      assert s + Falses(g) == s;
    }
    assert Runs(line) == block;
    PatternShape(line);
  }

  // ---------------------------------------------------------------------
  // The other direction: every line is filled by a placement of its runs.
  // ---------------------------------------------------------------------

  /** The end of the last block of p, or 0 when there is none. */
  function LastEnd(block: seq<int>, p: seq<int>): int
    requires |p| <= |block|
  {
    if p == [] then 0 else p[|p| - 1] + block[|p| - 1]
  }

  /** What reading the line s so far has established about its runs and their starts. */
  ghost predicate StartsInv(s: seq<bool>)
  {
    var st, rt := Starts(s), Runs(s);
    && IsPlacement(|s|, rt, st)
    && Positive(rt)
    && Cover(|s|, st, rt) == s
    && (Trailing(s) == 0 && st != [] ==> LastEnd(rt, st) < |s|)
    && (Trailing(s) > 0 ==> st != [] && LastEnd(rt, st) == |s|)
  }

  lemma NewRunPlacement(len: nat, st: seq<int>, rt: seq<int>)
    requires IsPlacement(len, rt, st)
    requires st != [] ==> LastEnd(rt, st) < len
    ensures IsPlacement(len + 1, rt + [1], st + [len])
  {
    var ss, rs := st + [len], rt + [1];
    forall k | 0 < k < |ss|
      ensures ss[k] >= ss[k - 1] + rs[k - 1] + 1
    {
      if k < |st| {
        assert ss[k] == st[k] && ss[k - 1] == st[k - 1] && rs[k - 1] == rt[k - 1];
      }
    }
  }

  lemma NewRunCover(t: seq<bool>, st: seq<int>, rt: seq<int>)
    requires |st| == |rt| && Cover(|t|, st, rt) == t
    requires st != [] ==> LastEnd(rt, st) < |t|
    requires Positive(rt) && IsPlacement(|t|, rt, st)
    ensures Cover(|t| + 1, st + [|t|], rt + [1]) == t + [true]
  {
    var s := t + [true];
    var ss, rs := st + [|t|], rt + [1];
    forall x | 0 <= x < |s|
      ensures Covered(ss, rs, x) == s[x]
    {
      if x < |t| {
        assert s[x] == t[x];
        if Covered(ss, rs, x) {
          var i :| 0 <= i < |ss| && ss[i] <= x < ss[i] + rs[i];
          assert i < |st|;
          assert Covered(st, rt, x);
        }
        if Covered(st, rt, x) {
          var i :| 0 <= i < |st| && st[i] <= x < st[i] + rt[i];
          assert ss[i] == st[i] && rs[i] == rt[i];
        }
      } else {
        assert ss[|st|] <= x < ss[|st|] + rs[|st|];
      }
    }
  }

  lemma StartsNewRun(t: seq<bool>)
    requires StartsInv(t) && Trailing(t) == 0
    ensures StartsInv(t + [true])
  {
    var s := t + [true];
    assert s[..|s| - 1] == t;
    var st, rt := Starts(t), Runs(t);
    assert Starts(s) == st + [|t|];
    assert Trailing(s) == 1 && Completed(s) == Completed(t);
    assert Runs(s) == rt + [1];
    NewRunPlacement(|t|, st, rt);
    NewRunCover(t, st, rt);
  }

  lemma GrowRunCover(t: seq<bool>, st: seq<int>, rt: seq<int>)
    requires |st| == |rt| > 0 && Cover(|t|, st, rt) == t
    requires LastEnd(rt, st) == |t| && rt[|rt| - 1] >= 0
    ensures Cover(|t| + 1, st, rt[..|rt| - 1] + [rt[|rt| - 1] + 1]) == t + [true]
  {
    var s := t + [true];
    var last := |rt| - 1;
    var rs := rt[..last] + [rt[last] + 1];
    forall x | 0 <= x < |s|
      ensures Covered(st, rs, x) == s[x]
    {
      if x < |t| {
        assert s[x] == t[x];
        if Covered(st, rs, x) {
          var i :| 0 <= i < |st| && st[i] <= x < st[i] + rs[i];
          assert st[i] <= x < st[i] + rt[i];
          assert Covered(st, rt, x);
        }
        if Covered(st, rt, x) {
          var i :| 0 <= i < |st| && st[i] <= x < st[i] + rt[i];
          assert st[i] <= x < st[i] + rs[i];
        }
      } else {
        assert st[last] <= x < st[last] + rs[last];
      }
    }
  }

  lemma GrowRunPlacement(len: nat, st: seq<int>, rt: seq<int>)
    requires IsPlacement(len, rt, st) && Positive(rt) && st != [] && LastEnd(rt, st) == len
    ensures IsPlacement(len + 1, rt[..|rt| - 1] + [rt[|rt| - 1] + 1], st)
    ensures Positive(rt[..|rt| - 1] + [rt[|rt| - 1] + 1])
  {
    var last := |rt| - 1;
    var rs := rt[..last] + [rt[last] + 1];
    assert forall k :: 0 <= k < last ==> rs[k] == rt[k];
  }

  lemma StartsGrowRun(t: seq<bool>)
    requires StartsInv(t) && Trailing(t) > 0
    ensures StartsInv(t + [true])
  {
    var st, rt := Starts(t), Runs(t);
    GrowRunRuns(t);
    GrowRunPlacement(|t|, st, rt);
    GrowRunCover(t, st, rt);
  }

  /** A filled cell after a filled one keeps the starts and lengthens the last run. */
  lemma GrowRunRuns(t: seq<bool>)
    requires Trailing(t) > 0
    ensures |Runs(t)| > 0 && Trailing(t + [true]) > 0
    ensures Starts(t + [true]) == Starts(t)
    ensures Runs(t + [true]) == Runs(t)[..|Runs(t)| - 1] + [Runs(t)[|Runs(t)| - 1] + 1]
  {
    var s := t + [true];
    assert s[..|s| - 1] == t;
    var rt := Runs(t);
    assert Trailing(s) == Trailing(t) + 1 && Completed(s) == Completed(t);
    assert rt == Completed(t) + [Trailing(t)];
    assert rt[..|rt| - 1] == Completed(t);
  }

  lemma BlankCover(t: seq<bool>, st: seq<int>, rt: seq<int>)
    requires IsPlacement(|t|, rt, st) && Positive(rt) && Cover(|t|, st, rt) == t
    ensures Cover(|t| + 1, st, rt) == t + [false]
  {
    var s := t + [false];
    forall x | 0 <= x < |s|
      ensures Covered(st, rt, x) == s[x]
    {
      if x < |t| {
        assert s[x] == t[x];
      } else if Covered(st, rt, x) {
        var i :| 0 <= i < |st| && st[i] <= x < st[i] + rt[i];
        EndsIncrease(|t|, rt, st, i, |st| - 1);
        assert false;
      }
    }
  }

  lemma StartsBlank(t: seq<bool>)
    requires StartsInv(t)
    ensures StartsInv(t + [false])
  {
    var s := t + [false];
    assert s[..|s| - 1] == t;
    var st, rt := Starts(t), Runs(t);
    assert Trailing(s) == 0 && Completed(s) == rt;
    assert Starts(s) == st && Runs(s) == rt;
    BlankCover(t, st, rt);
  }

  /** Every line is what its runs, placed at their starts, fill. */
  lemma {:induction false} StartsPlaceRuns(s: seq<bool>)
    ensures StartsInv(s)
  {
    if s == [] {
      assert Cover(0, [], []) == [];
    } else {
      var t := s[..|s| - 1];
      assert s == t + [s[|s| - 1]];
      StartsPlaceRuns(t);
      if !s[|s| - 1] {
        StartsBlank(t);
      } else if Trailing(t) == 0 {
        StartsNewRun(t);
      } else {
        StartsGrowRun(t);
      }
    }
  }

  /** The placement of a line's derived pattern that fills exactly that line. */
  function PatternStarts(s: seq<bool>): seq<int>
  {
    if Runs(s) == [] then [0] else Starts(s)
  }

  /**
   * Every line is what some placement of its derived pattern fills
   * (pattern.go:31-46 read against solver.go:205-214).
   */
  lemma PatternPlacesLine(s: seq<bool>)
    ensures IsPlacement(|s|, Pattern(s), PatternStarts(s))
    ensures Cover(|s|, PatternStarts(s), Pattern(s)) == s
  {
    StartsPlaceRuns(s);
    PatternShape(s);
    if Runs(s) == [] {
      NoRunsIffBlank(s);
      forall x | 0 <= x < |s|
        ensures !Covered([0], [0], x)
      {
      }
      assert Cover(|s|, [0], [0]) == s;
    }
  }

  // ---------------------------------------------------------------------
  // Counting filled cells.
  // ---------------------------------------------------------------------

  /** Two lines that never fill the same cell fill, together, as many cells as each of them separately. */
  lemma {:induction false} CountDisjoint(a: seq<bool>, b: seq<bool>, u: seq<bool>)
    requires |a| == |u| && |b| == |u|
    requires forall x :: 0 <= x < |u| ==> (u[x] <==> a[x] || b[x]) && !(a[x] && b[x])
    ensures Count(u) == Count(a) + Count(b)
  {
    if u != [] {
      var m := |u| - 1;
      CountDisjoint(a[..m], b[..m], u[..m]);
    }
  }

  /** The cells lo..hi - 1 of a line of n cells: min(n, hi) - lo of them when n passes lo. */
  lemma {:induction false} CountInterval(n: nat, lo: int, hi: int)
    requires 0 <= lo <= hi
    ensures Count(seq(n, x => lo <= x < hi)) == if n <= lo then 0 else if n <= hi then n - lo else hi - lo
  {
    if n > 0 {
      CountInterval(n - 1, lo, hi);
      assert seq(n, x => lo <= x < hi)[..n - 1] == seq(n - 1, x => lo <= x < hi);
    }
  }

  /** A line filling every cell another line fills fills at least as many, and more when it fills one more. */
  lemma {:induction false} CountGrows(a: seq<bool>, b: seq<bool>, x: int)
    requires |a| == |b| && forall y :: 0 <= y < |a| && a[y] ==> b[y]
    ensures Count(a) <= Count(b)
    ensures 0 <= x < |a| && b[x] && !a[x] ==> Count(a) < Count(b)
  {
    if a != [] {
      var m := |a| - 1;
      CountGrows(a[..m], b[..m], x);
    }
  }
}
