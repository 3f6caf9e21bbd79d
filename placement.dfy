/**
 * What a placement of a line's blocks is, and the exact list of placements
 * the recursive enumerator of variant.go produces, in production order.
 *
 * A placement is the list of start offsets of the blocks. The enumerator
 * tries, for block k, every start from the earliest one (just after block
 * k-1 and one blank cell) up to the latest one that still leaves room for
 * blocks k.. and their separating blanks, recursing on block k+1 for each.
 */
module Placement {

  /** Sum of a list of block lengths, built left to right like the prefix sums. */
  function Sum(s: seq<int>): int
  {
    if s == [] then 0 else Sum(s[..|s| - 1]) + s[|s| - 1]
  }

  lemma {:induction false} SumAppend(a: seq<int>, b: seq<int>)
    ensures Sum(a + b) == Sum(a) + Sum(b)
    decreases |b|
  {
    if b == [] {
      assert a + b == a;
    } else {
      assert (a + b)[..|a + b| - 1] == a + b[..|b| - 1];
      SumAppend(a, b[..|b| - 1]);
    }
  }

  /** Sum of block[k..] peeled from the front. */
  lemma SumFrom(block: seq<int>, k: nat)
    requires k < |block|
    ensures Sum(block[k..]) == block[k] + Sum(block[k + 1..])
  {
    assert block[k..] == [block[k]] + block[k + 1..];
    SumAppend([block[k]], block[k + 1..]);
    assert [block[k]][..0] == [];
  }

  /** Latest start of block k that leaves room for blocks k.. and the blanks between them. */
  function LastStart(n: int, block: seq<int>, k: nat): int
    requires k <= |block|
  {
    n - Sum(block[k..]) - (|block| - k - 1)
  }

  /** Earliest start of the block after the starts p: 0 for the first block, else one blank after the previous block. */
  function FirstStart(block: seq<int>, p: seq<int>): int
    requires |p| <= |block|
  {
    if p == [] then 0 else p[|p| - 1] + block[|p| - 1] + 1
  }

  /** The definition of a placement: one start per block, blocks in order with at least
      one blank between consecutive blocks, the first at or after 0 and the last ending at or before n. */
  ghost predicate IsPlacement(n: int, block: seq<int>, p: seq<int>)
  {
    && |p| == |block|
    && (|p| > 0 ==> 0 <= p[0] && p[|p| - 1] + block[|p| - 1] <= n)
    && forall k :: 0 < k < |p| ==> p[k] >= p[k - 1] + block[k - 1] + 1
  }

  /** Cell k lies inside one of the blocks placed at the starts `start`. */
  ghost predicate Covered(start: seq<int>, block: seq<int>, k: int)
    requires |start| <= |block|
  {
    exists i :: 0 <= i < |start| && start[i] <= k < start[i] + block[i]
  }

  /** The cells of a line of length len that the blocks at `start` fill. */
  ghost function Cover(len: nat, start: seq<int>, block: seq<int>): (r: seq<bool>)
    requires |start| <= |block|
    ensures |r| == len && forall k :: 0 <= k < len ==> (r[k] <==> Covered(start, block, k))
  {
    seq(len, k => Covered(start, block, k))
  }

  /** With lengths that are not negative, the blocks of a placement end in increasing order. */
  lemma {:induction false} EndsIncrease(n: int, block: seq<int>, p: seq<int>, i: nat, j: nat)
    requires IsPlacement(n, block, p) && i <= j < |p|
    requires forall k :: 0 <= k < |block| ==> block[k] >= 0
    ensures p[i] + block[i] <= p[j] + block[j]
    ensures i < j ==> p[i] + block[i] < p[j]
    decreases j - i
  {
    if i < j {
      EndsIncrease(n, block, p, i, j - 1);
    }
  }

  /** Starts k.. of q lie within the enumerator's bounds. */
  ghost predicate InBoundsFrom(n: int, block: seq<int>, q: seq<int>, from: nat)
    requires |q| <= |block|
  {
    forall k :: from <= k < |q| ==> FirstStart(block, q[..k]) <= q[k] <= LastStart(n, block, k)
  }

  /**
   * The placements extending the prefix p, in the order the enumerator yields
   * them: when every block is placed, p itself; otherwise the extensions of
   * p + [i] for i from the earliest start upward.
   */
  function Gen(n: int, block: seq<int>, p: seq<int>): seq<seq<int>>
    requires |p| <= |block|
    decreases |block| - |p|, 1, 0
  {
    if |p| == |block| then [p]
    else GenFrom(n, block, p, FirstStart(block, p))
  }

  /** The loop of the enumerator over the starts i, i+1, .., LastStart of the next block. */
  function GenFrom(n: int, block: seq<int>, p: seq<int>, i: int): seq<seq<int>>
    requires |p| < |block|
    decreases |block| - |p|, 0, LastStart(n, block, |p|) - i + 1
  {
    if i > LastStart(n, block, |p|) then []
    else Gen(n, block, p + [i]) + GenFrom(n, block, p, i + 1)
  }

  /** Everything the enumerator sends for a line of length n and the blocks `block`. */
  function Placements(n: int, block: seq<int>): seq<seq<int>>
  {
    Gen(n, block, [])
  }

  // ---------------------------------------------------------------------
  // Shape: every yielded list extends the prefix and stays within bounds.
  // ---------------------------------------------------------------------

  lemma {:induction false} GenShape(n: int, block: seq<int>, p: seq<int>)
    requires |p| <= |block|
    ensures forall q :: q in Gen(n, block, p) ==>
      |q| == |block| && q[..|p|] == p && InBoundsFrom(n, block, q, |p|)
    decreases |block| - |p|, 1, 0
  {
    if |p| < |block| {
      GenFromShape(n, block, p, FirstStart(block, p));
    }
  }

  lemma {:induction false} GenFromShape(n: int, block: seq<int>, p: seq<int>, i: int)
    requires |p| < |block|
    ensures forall q :: q in GenFrom(n, block, p, i) ==>
      |q| == |block| && q[..|p|] == p && i <= q[|p|] && q[|p|] <= LastStart(n, block, |p|)
      && (q[|p|] >= FirstStart(block, p) ==> InBoundsFrom(n, block, q, |p|))
    decreases |block| - |p|, 0, LastStart(n, block, |p|) - i + 1
  {
    if i <= LastStart(n, block, |p|) {
      var p' := p + [i];
      GenShape(n, block, p');
      GenFromShape(n, block, p, i + 1);
      forall q | q in Gen(n, block, p')
        ensures q[..|p|] == p && q[|p|] == i
        ensures i >= FirstStart(block, p) ==> InBoundsFrom(n, block, q, |p|)
      {
        ExtendShape(n, block, p, i, q);
      }
    }
  }

  /** A list that extends p + [i] within bounds extends p, and is within bounds from p on when i is. */
  lemma ExtendShape(n: int, block: seq<int>, p: seq<int>, i: int, q: seq<int>)
    requires |p| < |block| == |q| && i <= LastStart(n, block, |p|)
    requires q[..|p| + 1] == p + [i] && InBoundsFrom(n, block, q, |p| + 1)
    ensures q[..|p|] == p && q[|p|] == i
    ensures i >= FirstStart(block, p) ==> InBoundsFrom(n, block, q, |p|)
  {
    assert q[..|p|] == q[..|p| + 1][..|p|];
    assert q[|p|] == q[..|p| + 1][|p|];
    if i >= FirstStart(block, p) {
      forall k | |p| <= k < |q|
        ensures FirstStart(block, q[..k]) <= q[k] <= LastStart(n, block, k)
      {
        if k == |p| {
          assert q[..k] == p;
        }
      }
    }
  }

  // ---------------------------------------------------------------------
  // Completeness: every list within bounds that extends p is yielded.
  // ---------------------------------------------------------------------

  lemma {:induction false} GenComplete(n: int, block: seq<int>, p: seq<int>, q: seq<int>)
    requires |p| <= |block| == |q|
    requires q[..|p|] == p && InBoundsFrom(n, block, q, |p|)
    ensures q in Gen(n, block, p)
    decreases |block| - |p|, 1, 0
  {
    if |p| == |block| {
      assert q == q[..|p|];
    } else {
      assert q[..|p|] == p;
      GenFromComplete(n, block, p, FirstStart(block, p), q);
    }
  }

  lemma {:induction false} GenFromComplete(n: int, block: seq<int>, p: seq<int>, i: int, q: seq<int>)
    requires |p| < |block| == |q|
    requires q[..|p|] == p && InBoundsFrom(n, block, q, |p|) && i <= q[|p|]
    ensures q in GenFrom(n, block, p, i)
    decreases |block| - |p|, 0, LastStart(n, block, |p|) - i + 1
  {
    var j := q[|p|];
    assert j <= LastStart(n, block, |p|);
    assert GenFrom(n, block, p, i) == Gen(n, block, p + [i]) + GenFrom(n, block, p, i + 1);
    if i == j {
      var p' := p + [j];
      assert q[..|p'|] == p';
      GenComplete(n, block, p', q);
    } else {
      GenFromComplete(n, block, p, i + 1, q);
    }
  }

  // ---------------------------------------------------------------------
  // Order: strictly increasing lexicographically, so no list twice.
  // ---------------------------------------------------------------------

  /** a comes before b in lexicographic order and differs from it at index k. */
  ghost predicate LexLessAt(a: seq<int>, b: seq<int>, k: nat)
  {
    k < |a| && k < |b| && a[..k] == b[..k] && a[k] < b[k]
  }

  ghost predicate LexLess(a: seq<int>, b: seq<int>)
  {
    exists k: nat :: LexLessAt(a, b, k)
  }

  ghost predicate StrictlyIncreasing(s: seq<seq<int>>)
  {
    forall i, j :: 0 <= i < j < |s| ==> LexLess(s[i], s[j])
  }

  lemma {:induction false} GenIncreasing(n: int, block: seq<int>, p: seq<int>)
    requires |p| <= |block|
    ensures StrictlyIncreasing(Gen(n, block, p))
    decreases |block| - |p|, 1, 0
  {
    if |p| < |block| {
      GenFromIncreasing(n, block, p, FirstStart(block, p));
    }
  }

  lemma {:induction false} GenFromIncreasing(n: int, block: seq<int>, p: seq<int>, i: int)
    requires |p| < |block|
    ensures StrictlyIncreasing(GenFrom(n, block, p, i))
    decreases |block| - |p|, 0, LastStart(n, block, |p|) - i + 1
  {
    if i <= LastStart(n, block, |p|) {
      var p' := p + [i];
      var a := Gen(n, block, p');
      var b := GenFrom(n, block, p, i + 1);
      GenIncreasing(n, block, p');
      GenFromIncreasing(n, block, p, i + 1);
      GenShape(n, block, p');
      GenFromShape(n, block, p, i + 1);
      var s := a + b;
      forall x, y | 0 <= x < y < |s|
        ensures LexLess(s[x], s[y])
      {
        if y < |a| {
          assert LexLess(a[x], a[y]);
        } else if x >= |a| {
          assert LexLess(b[x - |a|], b[y - |a|]);
        } else {
          var u, v := a[x], b[y - |a|];
          assert u in a && v in b;
          assert u[..|p|] == u[..|p'|][..|p|] == p;
          assert u[|p|] == u[..|p'|][|p|] == i;
          assert LexLessAt(u, v, |p|);
        }
      }
    }
  }

  lemma LexLessIrreflexive(a: seq<int>)
    ensures !LexLess(a, a)
  {
  }

  // ---------------------------------------------------------------------
  // The enumerator's bounds describe exactly the placements.
  // ---------------------------------------------------------------------

  /** Given the gaps, the latest-start bound of every block follows from the last block fitting. */
  lemma {:induction false} LastFitBoundsAll(n: int, block: seq<int>, q: seq<int>, k: nat)
    requires IsPlacement(n, block, q) && k < |q|
    ensures q[k] <= LastStart(n, block, k)
    decreases |q| - k
  {
    SumFrom(block, k);
    if k == |q| - 1 {
      assert block[k + 1..] == [];
    } else {
      LastFitBoundsAll(n, block, q, k + 1);
    }
  }

  lemma {:induction false} PlacementIffInBounds(n: int, block: seq<int>, q: seq<int>)
    requires |q| == |block|
    ensures IsPlacement(n, block, q) <==> InBoundsFrom(n, block, q, 0)
  {
    if IsPlacement(n, block, q) {
      forall k | 0 <= k < |q|
        ensures FirstStart(block, q[..k]) <= q[k] <= LastStart(n, block, k)
      {
        LastFitBoundsAll(n, block, q, k);
      }
    }
    if InBoundsFrom(n, block, q, 0) && |q| > 0 {
      var last := |q| - 1;
      assert LastStart(n, block, last) <= n - block[last] by {
        SumFrom(block, last);
        assert block[last + 1..] == [];
      }
      assert q[..0] == [];
      forall k | 0 < k < |q|
        ensures q[k] >= q[k - 1] + block[k - 1] + 1
      {
        assert q[..k][k - 1] == q[k - 1];
      }
    }
  }

  /**
   * The enumerator yields exactly the placements (variant.go:34-53), each once,
   * in strictly increasing lexicographic order.
   */
  lemma PlacementsExactly(n: int, block: seq<int>)
    ensures forall q :: q in Placements(n, block) <==> IsPlacement(n, block, q)
    ensures StrictlyIncreasing(Placements(n, block))
    ensures forall i, j :: 0 <= i < j < |Placements(n, block)| ==> Placements(n, block)[i] != Placements(n, block)[j]
  {
    GenShape(n, block, []);
    GenIncreasing(n, block, []);
    forall q
      ensures q in Placements(n, block) <==> IsPlacement(n, block, q)
    {
      if q in Placements(n, block) {
        PlacementIffInBounds(n, block, q);
      }
      if IsPlacement(n, block, q) {
        PlacementIffInBounds(n, block, q);
        assert q[..0] == [];
        GenComplete(n, block, [], q);
      }
    }
    var s := Placements(n, block);
    forall i, j | 0 <= i < j < |s|
      ensures s[i] != s[j]
    {
      assert LexLess(s[i], s[j]);
      LexLessIrreflexive(s[i]);
    }
  }

  /** Every yielded placement has one start per block (variant.go:35-39). */
  lemma PlacementLength(n: int, block: seq<int>, q: seq<int>)
    requires q in Placements(n, block)
    ensures |q| == |block|
  {
    GenShape(n, block, []);
  }

  /** An empty block list yields one empty placement (variant.go:35-39). */
  lemma EmptyPatternOnePlacement(n: int)
    ensures Placements(n, []) == [[]]
  {
  }

  /** The pattern [0] yields the n+1 placements [0], .., [n] (variant.go:43-48). */
  lemma {:induction false} ZeroPatternPlacements(n: nat)
    ensures Placements(n, [0]) == seq(n + 1, i => [i])
  {
    ZeroFrom(n, 0);
    assert FirstStart([0], []) == 0;
  }

  lemma {:induction false} ZeroFrom(n: nat, i: nat)
    requires i <= n + 1
    ensures GenFrom(n, [0], [], i) == seq(n + 1 - i, k => [i + k])
    decreases n + 1 - i
  {
    assert LastStart(n, [0], 0) == n by {
      assert [0][0..] == [0];
      assert Sum([0]) == Sum([]) + 0;
    }
    if i <= n {
      ZeroFrom(n, i + 1);
      assert Gen(n, [0], [i]) == [[i]];
      assert [] + [i] == [i];
      assert GenFrom(n, [0], [], i) == [[i]] + seq(n - i, k => [i + 1 + k]);
      assert [[i]] + seq(n - i, k => [i + 1 + k]) == seq(n + 1 - i, k => [i + k]);
    }
  }

  /** A pattern too long for its line yields nothing (variant.go:42-48). */
  lemma TooLongNoPlacement(n: int, block: seq<int>)
    requires |block| > 0 && Sum(block) + |block| - 1 > n
    ensures Placements(n, block) == []
  {
    assert block[0..] == block;
    assert LastStart(n, block, 0) < 0;
    assert FirstStart(block, []) == 0;
    assert Placements(n, block) == GenFrom(n, block, [], 0);
  }
}
