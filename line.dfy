/**
 * One line (a row or a column) of the solver's working grid, and the
 * deduction that tryRows and tryColumns of solver.go apply to each line:
 * keep the placements that agree with every known cell, then fix an
 * unknown cell when all surviving placements agree on it.
 */
module Line {
  import opened Wrappers
  import opened Placement
  import R = Runs

  /** The tri-state cell of the working grid (solver.go:12-18). */
  datatype State = Unknown | Filled | Blank

  /** Block lengths that are not negative, as every pattern the puzzle produces has. */
  ghost predicate NonNegative(block: seq<int>)
  {
    forall k :: 0 <= k < |block| ==> block[k] >= 0
  }

  /** With lengths that are not negative every block of a placement lies inside the line. */
  lemma PlacementInBounds(n: int, block: seq<int>, p: seq<int>)
    requires IsPlacement(n, block, p) && NonNegative(block)
    ensures forall i :: 0 <= i < |p| ==> 0 <= p[i] && p[i] + block[i] <= n
  {
    forall i | 0 <= i < |p|
      ensures 0 <= p[i] && p[i] + block[i] <= n
    {
      EndsIncrease(n, block, p, 0, i);
      EndsIncrease(n, block, p, i, |p| - 1);
    }
  }

  /** Cell k is covered by the first i + 1 blocks when the first i cover it or block i does. */
  lemma CoveredSnoc(start: seq<int>, block: seq<int>, i: nat, k: int)
    requires i < |start| <= |block|
    ensures Covered(start[..i + 1], block, k) <==>
      Covered(start[..i], block, k) || (start[i] <= k < start[i] + block[i])
  {
    if Covered(start[..i + 1], block, k) {
      var t :| 0 <= t < i + 1 && start[..i + 1][t] <= k < start[..i + 1][t] + block[t];
      if t < i {
        assert start[..i][t] == start[t];
      }
    }
    if Covered(start[..i], block, k) {
      var t :| 0 <= t < i && start[..i][t] <= k < start[..i][t] + block[t];
      assert start[..i + 1][t] == start[t];
    }
    if start[i] <= k < start[i] + block[i] {
      assert start[..i + 1][i] == start[i];
    }
  }

  /** isPossible (solver.go:219-225): may a cell now in state `current` take the state `possible`? */
  predicate IsPossible(current: State, possible: State)
  {
    if current == Unknown then true else current == possible
  }

  /** The line that fillWith writes for the blocks `block` at the starts `start` (solver.go:205-214). */
  ghost function Painted(len: nat, start: seq<int>, block: seq<int>): (r: seq<State>)
    requires |start| <= |block|
    ensures |r| == len
    ensures forall k :: 0 <= k < len ==> r[k] != Unknown && (r[k] == Filled <==> Covered(start, block, k))
  {
    seq(len, k => if Covered(start, block, k) then Filled else Blank)
  }

  /** The suitability loop of tryRows (solver.go:115-121): the painted line agrees with every known cell. */
  ghost predicate Suitable(line: seq<State>, painted: seq<State>)
    requires |line| == |painted|
  {
    forall c :: 0 <= c < |line| ==> IsPossible(line[c], painted[c])
  }

  /** b knows at least what a knows: every known cell of a is unchanged in b. */
  ghost predicate Refines(a: seq<State>, b: seq<State>)
  {
    |a| == |b| && forall c :: 0 <= c < |a| && a[c] != Unknown ==> b[c] == a[c]
  }

  /** No cell of the line is Unknown. */
  ghost predicate Complete(line: seq<State>)
  {
    forall c :: 0 <= c < |line| ==> line[c] != Unknown
  }

  ghost predicate Sized(ps: seq<seq<int>>, block: seq<int>)
  {
    forall i :: 0 <= i < |ps| ==> |ps[i]| == |block|
  }

  /** The placements of ps that the line admits, in order. */
  ghost function Survivors(line: seq<State>, block: seq<int>, ps: seq<seq<int>>): (r: seq<seq<int>>)
    requires Sized(ps, block)
    ensures Sized(r, block)
  {
    if ps == [] then []
    else
      var rest := Survivors(line, block, ps[..|ps| - 1]);
      var p := ps[|ps| - 1];
      if Suitable(line, Painted(|line|, p, block)) then rest + [p] else rest
  }

  /** How many placements of ps fill cell c: the `rowFills` counter. */
  ghost function FillCount(block: seq<int>, ps: seq<seq<int>>, c: int): nat
    requires Sized(ps, block)
  {
    if ps == [] then 0
    else FillCount(block, ps[..|ps| - 1], c) + (if Covered(ps[|ps| - 1], block, c) then 1 else 0)
  }

  /** One more placement offered to the filter. */
  lemma SurvivorsStep(line: seq<State>, block: seq<int>, ps: seq<seq<int>>, t: nat)
    requires Sized(ps, block) && t < |ps|
    ensures Sized(ps[..t], block) && Sized(ps[..t + 1], block)
    ensures Survivors(line, block, ps[..t + 1]) ==
      Survivors(line, block, ps[..t]) + (if Suitable(line, Painted(|line|, ps[t], block)) then [ps[t]] else [])
  {
    assert ps[..t + 1][..t] == ps[..t];
  }

  lemma FillCountSnoc(block: seq<int>, ps: seq<seq<int>>, p: seq<int>, c: int)
    requires Sized(ps, block) && |p| == |block|
    ensures Sized(ps + [p], block)
    ensures FillCount(block, ps + [p], c) == FillCount(block, ps, c) + (if Covered(p, block, c) then 1 else 0)
  {
    assert (ps + [p])[..|ps|] == ps;
  }

  /** The update of one cell after the placements are counted (solver.go:139-147). */
  function Decide(current: State, fills: int, count: int): State
  {
    if fills == count && current == Unknown then Filled
    else if fills == 0 && current == Unknown then Blank
    else current
  }

  lemma PlacementsSized(len: nat, block: seq<int>)
    ensures Sized(Placements(len, block), block)
  {
    PlacementsExactly(len, block);
    var ps := Placements(len, block);
    forall i | 0 <= i < |ps|
      ensures |ps[i]| == |block|
    {
      assert ps[i] in ps;
    }
  }

  lemma PlacementAt(len: nat, block: seq<int>, t: nat)
    requires t < |Placements(len, block)|
    ensures IsPlacement(len, block, Placements(len, block)[t])
  {
    PlacementsExactly(len, block);
    assert Placements(len, block)[t] in Placements(len, block);
  }

  /** The placements of a line of that length that survive the current line: the candidates that tryRows keeps. */
  ghost function LineSurvivors(line: seq<State>, block: seq<int>): (r: seq<seq<int>>)
    ensures Sized(r, block)
  {
    PlacementsSized(|line|, block);
    SurvivorsSized(line, block, Placements(|line|, block));
    Survivors(line, block, Placements(|line|, block))
  }

  /** The survivors are exactly the placements that suit the line. */
  lemma LineSurvivorsExactly(line: seq<State>, block: seq<int>)
    ensures forall p :: p in LineSurvivors(line, block) <==> IsPlacement(|line|, block, p) && Suitable(line, Painted(|line|, p, block))
  {
    PlacementsSized(|line|, block);
    PlacementsExactly(|line|, block);
    SurvivorsSized(line, block, Placements(|line|, block));
  }

  /** One line of a pass: None for a contradiction, else the line with every agreed cell fixed. */
  ghost function LinePass(line: seq<State>, block: seq<int>): Option<seq<State>>
  {
    var surv := LineSurvivors(line, block);
    if |surv| == 0 then None
    else Some(seq(|line|, c requires 0 <= c < |line| => Decide(line[c], FillCount(block, surv, c), |surv|)))
  }

  /** The line pass cell by cell, in the terms of the counters of tryRows. */
  lemma LinePassValue(line: seq<State>, block: seq<int>)
    ensures LinePass(line, block).Some? <==> |LineSurvivors(line, block)| > 0
    ensures LinePass(line, block).Some? ==>
      && |LinePass(line, block).value| == |line|
      && forall c :: 0 <= c < |line| ==>
           LinePass(line, block).value[c] ==
             Decide(line[c], FillCount(block, LineSurvivors(line, block), c), |LineSurvivors(line, block)|)
  {
  }

  // ---------------------------------------------------------------------
  // The filter and the counter.
  // ---------------------------------------------------------------------

  lemma {:induction false} SurvivorsSized(line: seq<State>, block: seq<int>, ps: seq<seq<int>>)
    requires Sized(ps, block)
    ensures Sized(Survivors(line, block, ps), block)
    ensures forall p :: p in Survivors(line, block, ps) <==> p in ps && Suitable(line, Painted(|line|, p, block))
  {
    if ps != [] {
      var init := ps[..|ps| - 1];
      assert Sized(init, block);
      SurvivorsSized(line, block, init);
      assert ps == init + [ps[|ps| - 1]];
    }
  }

  /** At most every placement fills a cell; all of them exactly when each one covers it, none exactly when none does. */
  lemma FillCountBounds(block: seq<int>, ps: seq<seq<int>>, c: int)
    requires Sized(ps, block)
    ensures FillCount(block, ps, c) <= |ps|
    ensures FillCount(block, ps, c) == |ps| <==> forall p :: p in ps ==> Covered(p, block, c)
    ensures FillCount(block, ps, c) == 0 <==> forall p :: p in ps ==> !Covered(p, block, c)
  {
    FillCountAll(block, ps, c);
    FillCountNone(block, ps, c);
  }

  lemma {:induction false} FillCountAll(block: seq<int>, ps: seq<seq<int>>, c: int)
    requires Sized(ps, block)
    ensures FillCount(block, ps, c) <= |ps|
    ensures FillCount(block, ps, c) == |ps| <==> forall i :: 0 <= i < |ps| ==> Covered(ps[i], block, c)
  {
    if ps != [] {
      var init := ps[..|ps| - 1];
      assert Sized(init, block);
      FillCountAll(block, init, c);
      assert forall i :: 0 <= i < |init| ==> init[i] == ps[i];
    }
  }

  lemma {:induction false} FillCountNone(block: seq<int>, ps: seq<seq<int>>, c: int)
    requires Sized(ps, block)
    ensures FillCount(block, ps, c) == 0 <==> forall i :: 0 <= i < |ps| ==> !Covered(ps[i], block, c)
  {
    if ps != [] {
      var init := ps[..|ps| - 1];
      assert Sized(init, block);
      FillCountNone(block, init, c);
      assert forall i :: 0 <= i < |init| ==> init[i] == ps[i];
    }
  }

  /** A painted line that a line admits is also admitted by any line that knows less. */
  lemma SuitableWeaker(a: seq<State>, b: seq<State>, painted: seq<State>)
    requires Refines(a, b) && |painted| == |b|
    requires Suitable(b, painted)
    ensures Suitable(a, painted)
  {
    forall c | 0 <= c < |a|
      ensures IsPossible(a[c], painted[c])
    {
      assert IsPossible(b[c], painted[c]);
    }
  }

  // ---------------------------------------------------------------------
  // What one line of a pass does.
  // ---------------------------------------------------------------------

  /**
   * A pass over one line (solver.go:107-147): it reports a contradiction
   * exactly when no placement of the line's blocks agrees with the known
   * cells; otherwise it changes only Unknown cells, sets a cell Filled
   * exactly when every surviving placement fills it and Blank exactly when
   * none does.
   */
  lemma LinePassSpec(line: seq<State>, block: seq<int>)
    ensures LinePass(line, block).None? <==>
      forall p :: IsPlacement(|line|, block, p) ==> !Suitable(line, Painted(|line|, p, block))
    ensures LinePass(line, block).Some? ==>
      var r := LinePass(line, block).value;
      var surv := LineSurvivors(line, block);
      && Refines(line, r)
      && (forall c :: 0 <= c < |line| && line[c] == Unknown ==>
            && (r[c] == Filled <==> forall p :: p in surv ==> Covered(p, block, c))
            && (r[c] == Blank <==> forall p :: p in surv ==> !Covered(p, block, c)))
  {
    var ps := Placements(|line|, block);
    PlacementsSized(|line|, block);
    PlacementsExactly(|line|, block);
    SurvivorsSized(line, block, ps);
    var surv := LineSurvivors(line, block);
    if LinePass(line, block).Some? {
      var r := LinePass(line, block).value;
      LineSurvivorsExactly(line, block);
      assert surv[0] in surv;
      assert IsPlacement(|line|, block, surv[0]) && Suitable(line, Painted(|line|, surv[0], block));
      forall c | 0 <= c < |line| && line[c] == Unknown
        ensures r[c] == Filled <==> forall p :: p in surv ==> Covered(p, block, c)
        ensures r[c] == Blank <==> forall p :: p in surv ==> !Covered(p, block, c)
      {
        FillCountBounds(block, surv, c);
        assert surv[0] in surv;
      }
    } else {
      forall p | IsPlacement(|line|, block, p)
        ensures !Suitable(line, Painted(|line|, p, block))
      {
        assert p in ps;
      }
    }
  }

  /**
   * Soundness of the deduction: a placement that agrees with the line
   * before the pass still agrees with it after the pass, so no solution of
   * the line is ever ruled out.
   */
  lemma LinePassKeepsPlacements(line: seq<State>, block: seq<int>, p: seq<int>)
    requires IsPlacement(|line|, block, p) && Suitable(line, Painted(|line|, p, block))
    ensures LinePass(line, block).Some?
    ensures Suitable(LinePass(line, block).value, Painted(|line|, p, block))
  {
    LinePassSpec(line, block);
    var ps := Placements(|line|, block);
    PlacementsSized(|line|, block);
    PlacementsExactly(|line|, block);
    SurvivorsSized(line, block, ps);
    var r := LinePass(line, block).value;
    var surv := LineSurvivors(line, block);
    assert p in surv;
    var painted := Painted(|line|, p, block);
    forall c | 0 <= c < |r|
      ensures IsPossible(r[c], painted[c])
    {
      assert IsPossible(line[c], painted[c]);
    }
  }

  lemma {:induction false} SurvivorsSame(a: seq<State>, b: seq<State>, block: seq<int>, ps: seq<seq<int>>)
    requires Sized(ps, block) && |a| == |b|
    requires forall p :: p in ps ==> (Suitable(a, Painted(|a|, p, block)) <==> Suitable(b, Painted(|b|, p, block)))
    ensures Survivors(a, block, ps) == Survivors(b, block, ps)
  {
    if ps != [] {
      var init := ps[..|ps| - 1];
      assert Sized(init, block);
      assert forall p :: p in init ==> p in ps;
      SurvivorsSame(a, b, block, init);
      assert ps[|ps| - 1] in ps;
    }
  }

  /** The placements that suit a line are those that suit its line pass. */
  lemma PassKeepsSuitable(line: seq<State>, block: seq<int>, p: seq<int>)
    requires LinePass(line, block).Some? && IsPlacement(|line|, block, p)
    ensures |LinePass(line, block).value| == |line|
    ensures Suitable(line, Painted(|line|, p, block)) <==> Suitable(LinePass(line, block).value, Painted(|line|, p, block))
  {
    var r := LinePass(line, block).value;
    LinePassSpec(line, block);
    if Suitable(line, Painted(|line|, p, block)) {
      LinePassKeepsPlacements(line, block, p);
    }
    if Suitable(r, Painted(|r|, p, block)) {
      SuitableWeaker(line, r, Painted(|r|, p, block));
    }
  }

  /** Idempotence: a second pass over a line that a pass has just updated changes nothing. */
  lemma LinePassIdempotent(line: seq<State>, block: seq<int>)
    requires LinePass(line, block).Some?
    ensures LinePass(LinePass(line, block).value, block) == LinePass(line, block)
  {
    var r := LinePass(line, block).value;
    var ps := Placements(|line|, block);
    PlacementsSized(|line|, block);
    PlacementsExactly(|line|, block);
    LinePassSpec(line, block);
    forall p | p in ps
      ensures Suitable(line, Painted(|line|, p, block)) <==> Suitable(r, Painted(|r|, p, block))
    {
      PassKeepsSuitable(line, block, p);
    }
    SurvivorsSame(line, r, block, ps);
    var surv := LineSurvivors(line, block);
    assert LineSurvivors(r, block) == surv;
    SurvivorsSized(line, block, ps);
    var r2 := LinePass(r, block).value;
    forall c | 0 <= c < |r|
      ensures r2[c] == r[c]
    {
      FillCountBounds(block, surv, c);
    }
    assert r2 == r;
  }

  /** A complete line that a pass accepts is exactly what one of its placements paints. */
  lemma CompleteLineIsPainted(line: seq<State>, block: seq<int>)
    requires Complete(line) && LinePass(line, block).Some?
    ensures exists p :: IsPlacement(|line|, block, p) && Painted(|line|, p, block) == line
  {
    var ps := Placements(|line|, block);
    PlacementsSized(|line|, block);
    PlacementsExactly(|line|, block);
    SurvivorsSized(line, block, ps);
    var surv := LineSurvivors(line, block);
    var p := surv[0];
    assert p in surv;
    var painted := Painted(|line|, p, block);
    forall c | 0 <= c < |line|
      ensures painted[c] == line[c]
    {
      assert IsPossible(line[c], painted[c]);
    }
    assert painted == line;
  }

  // ---------------------------------------------------------------------
  // Every placement fills the same number of cells.
  // ---------------------------------------------------------------------

  /** The first k blocks of a placement fill Sum(block[..k]) cells: they lie inside the line and never overlap. */
  lemma {:induction false} PlacementCountPrefix(n: nat, block: seq<int>, p: seq<int>, k: nat)
    requires IsPlacement(n, block, p) && NonNegative(block) && k <= |p|
    ensures R.Count(Cover(n, p[..k], block)) == Sum(block[..k])
  {
    if k == 0 {
      R.CountInterval(n, 0, 0);
      assert Cover(n, p[..0], block) == seq(n, x => 0 <= x < 0);
    } else {
      PlacementCountPrefix(n, block, p, k - 1);
      PlacementInBounds(n, block, p);
      var lo, hi := p[k - 1], p[k - 1] + block[k - 1];
      var before := Cover(n, p[..k - 1], block);
      var blk := seq(n, x => lo <= x < hi);
      var after := Cover(n, p[..k], block);
      forall x | 0 <= x < n
        ensures (after[x] <==> before[x] || blk[x]) && !(before[x] && blk[x])
      {
        CoveredLastBlock(n, block, p, k, x);
      }
      R.CountDisjoint(before, blk, after);
      R.CountInterval(n, lo, hi);
      assert block[..k][..k - 1] == block[..k - 1];
    }
  }

  /** Cell x is covered by the first k blocks when block k - 1 or an earlier one covers it, never both. */
  lemma CoveredLastBlock(n: nat, block: seq<int>, p: seq<int>, k: nat, x: int)
    requires IsPlacement(n, block, p) && NonNegative(block) && 0 < k <= |p|
    ensures Covered(p[..k], block, x) <==> Covered(p[..k - 1], block, x) || p[k - 1] <= x < p[k - 1] + block[k - 1]
    ensures !(Covered(p[..k - 1], block, x) && p[k - 1] <= x < p[k - 1] + block[k - 1])
  {
    CoveredSnoc(p, block, k - 1, x);
    if Covered(p[..k - 1], block, x) {
      var t :| 0 <= t < k - 1 && p[..k - 1][t] <= x < p[..k - 1][t] + block[t];
      EndsIncrease(n, block, p, t, k - 1);
    }
  }

  /** A placement of blocks that are not negative fills exactly Sum(block) cells. */
  lemma PlacementCount(n: nat, block: seq<int>, p: seq<int>)
    requires IsPlacement(n, block, p) && NonNegative(block)
    ensures R.Count(Cover(n, p, block)) == Sum(block)
  {
    PlacementCountPrefix(n, block, p, |p|);
    assert p[..|p|] == p && block[..|p|] == block;
  }

  /**
   * A line that its pass leaves unchanged, with an Unknown cell, and a
   * solution p of the line: some Unknown cell is one that p fills. Otherwise
   * p would fill only known Filled cells, while the survivor that fills the
   * undecided cell fills those and one more, and both fill Sum(block) cells.
   */
  lemma FixedLineFillsUnknown(line: seq<State>, block: seq<int>, p: seq<int>, c0: nat)
    requires NonNegative(block) && LinePass(line, block) == Some(line)
    requires IsPlacement(|line|, block, p) && Refines(line, Painted(|line|, p, block))
    requires c0 < |line| && line[c0] == Unknown
    ensures exists c :: 0 <= c < |line| && line[c] == Unknown && Painted(|line|, p, block)[c] == Filled
  {
    var n := |line|;
    var sol := Painted(n, p, block);
    if forall c :: 0 <= c < n && line[c] == Unknown ==> sol[c] != Filled {
      LinePassSpec(line, block);
      LineSurvivorsExactly(line, block);
      var surv := LineSurvivors(line, block);
      var q :| q in surv && Covered(q, block, c0);
      var other := Painted(n, q, block);
      assert Suitable(line, other);
      forall y | 0 <= y < n && Cover(n, p, block)[y]
        ensures Cover(n, q, block)[y]
      {
        assert sol[y] == Filled;
        assert IsPossible(line[y], other[y]);
      }
      R.CountGrows(Cover(n, p, block), Cover(n, q, block), c0);
      PlacementCount(n, block, p);
      PlacementCount(n, block, q);
      assert false;
    }
  }
}
