/**
 * The line placement enumerator of variant.go.
 *
 * The source runs the recursion in a goroutine and sends each placement on
 * an unbuffered channel; here the channel is the list `out` of everything
 * sent on it, in order. The recursion itself is kept as written: it appends
 * the next start to the shared buffer `cur`, recurses, and truncates `cur`
 * again.
 */
module Variant {
  import opened Placement

  class Variant {
    /** The sync.Once of the source: set by the first Provide. */
    var done: bool
    /** Every placement sent on the channel so far, in order. */
    var out: seq<seq<int>>
    var n: int
    var cur: seq<int>
    var pref: array<int>
    var block: seq<int>

    /** Between calls the shared buffer is empty, and nothing is sent before the first Provide. */
    ghost predicate Valid()
      reads this
    {
      cur == [] && (!done ==> out == [])
    }

    /** pref[i] is the sum of the first i block lengths. */
    ghost predicate PrefixSums()
      reads this, pref
    {
      pref.Length == |block| + 1 && forall i :: 0 <= i < pref.Length ==> pref[i] == Sum(block[..i])
    }

    /** The zero value `var v variant` of the source. */
    constructor ()
      ensures Valid() && !done && out == []
    {
      done := false;
      out := [];
      n := 0;
      cur := [];
      pref := new int[0];
      block := [];
    }

    /**
     * Provide (variant.go:14-32): on the first call, record the line length
     * and the blocks, fill the prefix sums and run the enumeration; every call
     * returns what the channel carries.
     */
    method Provide(n0: int, block0: seq<int>) returns (ch: seq<seq<int>>)
      requires Valid()
      modifies this
      ensures Valid() && done
      ensures !old(done) ==> n == n0 && block == block0 && PrefixSums() && ch == Placements(n0, block0)
      ensures old(done) ==> ch == old(out) && n == old(n) && block == old(block)
      ensures ch == out
    {
      if !done {
        done := true;
        block := block0;
        n := n0;
        var sums := new int[|block0| + 1](_ => 0);
        for i := 1 to |block0| + 1
          modifies sums
          invariant forall k :: 0 <= k < i ==> sums[k] == Sum(block0[..k])
        {
          assert block0[..i][..i - 1] == block0[..i - 1];
          sums[i] := sums[i - 1] + block0[i - 1];
        }
        pref := sums;
        GenerateVariant(0);
      }
      ch := out;
    }

    /**
     * generateVariant (variant.go:34-53): sends every placement extending the
     * starts in `cur`, in order, and leaves `cur` as it found it.
     */
    method GenerateVariant(idx: nat)
      requires PrefixSums() && idx == |cur| <= |block|
      modifies this`cur, this`out
      ensures cur == old(cur)
      ensures out == old(out) + Gen(n, block, old(cur))
      decreases |block| - idx
    {
      if idx == |block| {
        out := out + [cur];
        return;
      }

      var begin := 0;
      var end := n - (pref[|block|] - pref[idx]) - (|block| - idx - 1);
      if idx > 0 {
        begin := cur[idx - 1] + block[idx - 1] + 1;
      }
      assert end == LastStart(n, block, idx) by {
        assert block[..|block|] == block[..idx] + block[idx..];
        SumAppend(block[..idx], block[idx..]);
      }
      assert begin == FirstStart(block, cur);

      ghost var start := cur;
      assert Gen(n, block, start) == GenFrom(n, block, start, begin);
      var i := begin;
      while i <= end
        invariant cur == start
        invariant old(out) + GenFrom(n, block, start, begin) == out + GenFrom(n, block, start, i)
        decreases end - i + 1
      {
        assert GenFrom(n, block, start, i) == Gen(n, block, start + [i]) + GenFrom(n, block, start, i + 1);
        ghost var sent := out;
        cur := cur + [i];
        GenerateVariant(idx + 1);
        cur := cur[..|cur| - 1];
        assert cur == start;
        assert out == sent + Gen(n, block, start + [i]);
        SendStep(sent, Gen(n, block, start + [i]), GenFrom(n, block, start, i + 1));
        i := i + 1;
      }
      assert GenFrom(n, block, start, i) == [];
    }
  }

  /** What is sent so far, then the next batch, then the rest. */
  lemma SendStep(sent: seq<seq<int>>, batch: seq<seq<int>>, rest: seq<seq<int>>)
    ensures sent + (batch + rest) == sent + batch + rest
  {
  }
}
