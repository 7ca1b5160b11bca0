/** The block chain of the kernel heap (kernel/kmalloc.cpp) as a value.

  The heap is divided into units of BLOCK_SIZE bytes. A block is one header unit followed by
  `subblocks` further units; the chain lists the blocks in address order. `horizon` is the last
  unit whose header `next_block` still accepts, `units` is the number of units in the region. */
module HeapChain {

  const BLOCK_SIZE := 32

  datatype Block = Block(start: nat, subblocks: nat, free: bool) {
    /** The unit just behind the block. */
    function End(): nat {
      start + subblocks + 1
    }
  }

  /** The chain covers [0, units) without gap or overlap and every header is within the horizon. */
  ghost predicate Tiles(c: seq<Block>, horizon: nat, units: nat) {
    && |c| > 0
    && c[0].start == 0
    && (forall i :: 0 < i < |c| ==> c[i].start == c[i - 1].End())
    && (forall i :: 0 <= i < |c| ==> c[i].start <= horizon)
    && c[|c| - 1].End() == units
    && horizon < units
  }

  ghost predicate NoAdjacentFree(c: seq<Block>) {
    forall i :: 0 < i < |c| ==> !(c[i - 1].free && c[i].free)
  }

  predicate Fits(b: Block, extra: nat) {
    b.free && b.subblocks >= extra
  }

  /** The first block from `from` on that fits, or the length of the chain. */
  function FirstFit(c: seq<Block>, extra: nat, from: nat := 0): (i: nat)
    requires from <= |c|
    ensures from <= i <= |c|
    ensures i < |c| ==> Fits(c[i], extra)
    ensures forall j :: from <= j < i ==> !Fits(c[j], extra)
    decreases |c| - from
  {
    if from == |c| || Fits(c[from], extra) then from else FirstFit(c, extra, from + 1)
  }

  /** Take block `i` into use, keeping `extra` subblocks and cutting off the rest when the header of
    the rest would still be within the horizon. */
  function Cut(c: seq<Block>, i: nat, extra: nat, horizon: nat): seq<Block>
    requires i < |c| && Fits(c[i], extra)
  {
    var b := c[i];
    var rest := b.start + extra + 1;
    if b.subblocks == extra || rest > horizon then
      c[i := b.(free := false)]
    else
      c[..i] + [Block(b.start, extra, false), Block(rest, b.subblocks - extra - 1, true)] + c[i + 1..]
  }

  /** Merge block `i` with its successor. */
  function Absorb(c: seq<Block>, i: nat): seq<Block>
    requires i + 1 < |c|
  {
    c[..i] + [c[i].(subblocks := c[i].subblocks + c[i + 1].subblocks + 1)] + c[i + 2..]
  }

  /** Merge block `i` with its successors for as long as they are free. */
  function Coalesce(c: seq<Block>, i: nat): seq<Block>
    requires i < |c|
    decreases |c|
  {
    if i + 1 < |c| && c[i + 1].free then Coalesce(Absorb(c, i), i) else c
  }

  /** Give block `i` back. */
  function Release(c: seq<Block>, i: nat): seq<Block>
    requires i < |c|
  {
    var freed := c[i := c[i].(free := true)];
    if i > 0 && c[i - 1].free then Coalesce(freed, i - 1) else Coalesce(freed, i)
  }

  function InitialChain(units: nat): seq<Block>
    requires units > 0
  {
    [Block(0, units - 1, true)]
  }

  // ---------- Geometry of a tiling ----------

  lemma {:induction false} StartsIncrease(c: seq<Block>, horizon: nat, units: nat, i: nat, j: nat)
    requires Tiles(c, horizon, units)
    requires i < j < |c|
    ensures c[i].End() <= c[j].start
    decreases j - i
  {
    if i + 1 < j {
      StartsIncrease(c, horizon, units, i, j - 1);
    }
  }

  lemma EndsWithin(c: seq<Block>, horizon: nat, units: nat, i: nat)
    requires Tiles(c, horizon, units)
    requires i < |c|
    ensures c[i].End() <= units
    ensures i + 1 < |c| <==> c[i].End() <= horizon
  {
    if i + 1 < |c| {
      StartsIncrease(c, horizon, units, i, |c| - 1);
    }
  }

  lemma StartsDetermineIndex(c: seq<Block>, horizon: nat, units: nat, i: nat, j: nat)
    requires Tiles(c, horizon, units)
    requires i < |c| && j < |c| && c[i].start == c[j].start
    ensures i == j
  {
    if i < j {
      StartsIncrease(c, horizon, units, i, j);
    } else if j < i {
      StartsIncrease(c, horizon, units, j, i);
    }
  }

  /** Every unit of the region belongs to a block of the chain. */
  lemma {:induction false} EveryUnitCovered(c: seq<Block>, horizon: nat, units: nat, u: nat, from: nat)
    returns (i: nat)
    requires Tiles(c, horizon, units)
    requires from < |c| && c[from].start <= u < units
    ensures i < |c| && c[i].start <= u < c[i].End()
    decreases |c| - from
  {
    if u < c[from].End() {
      i := from;
    } else {
      i := EveryUnitCovered(c, horizon, units, u, from + 1);
    }
  }

  /** Units, headers included, that are held by blocks with the given free flag. */
  function UnitsHeld(c: seq<Block>, free: bool): nat {
    if c == [] then 0
    else UnitsHeld(c[..|c| - 1], free) + (if c[|c| - 1].free == free then c[|c| - 1].subblocks + 1 else 0)
  }

  lemma {:induction false} UnitsOfPrefix(c: seq<Block>, horizon: nat, units: nat, n: nat)
    requires Tiles(c, horizon, units)
    requires 0 < n <= |c|
    ensures UnitsHeld(c[..n], true) + UnitsHeld(c[..n], false) == c[n - 1].End()
  {
    assert c[..n][..n - 1] == c[..n - 1];
    if n > 1 {
      UnitsOfPrefix(c, horizon, units, n - 1);
    } else {
      assert c[..0] == [];
    }
  }

  /** Free and used units always add up to the whole region. */
  lemma UnitsConserved(c: seq<Block>, horizon: nat, units: nat)
    requires Tiles(c, horizon, units)
    ensures UnitsHeld(c, true) + UnitsHeld(c, false) == units
  {
    UnitsOfPrefix(c, horizon, units, |c|);
    assert c[..|c|] == c;
  }

  // ---------- The operations keep the tiling ----------

  /** `d` is `c` with block `i` replaced by the two blocks `x` and `y`. */
  ghost predicate Splits(c: seq<Block>, d: seq<Block>, i: nat, x: Block, y: Block) {
    && i < |c| && |d| == |c| + 1 && d[i] == x && d[i + 1] == y
    && (forall k :: 0 <= k < i ==> d[k] == c[k])
    && (forall k :: i + 1 < k < |d| ==> d[k] == c[k - 1])
  }

  lemma TwoForOne(c: seq<Block>, i: nat, x: Block, y: Block)
    requires i < |c|
    ensures Splits(c, c[..i] + [x, y] + c[i + 1..], i, x, y)
  {
  }

  /** A cut that splits replaces block `i` by two and shifts the rest. */
  lemma CutShape(c: seq<Block>, i: nat, extra: nat, horizon: nat)
    requires i < |c| && Fits(c[i], extra) && c[i].subblocks > extra && c[i].start + extra + 1 <= horizon
    ensures Splits(c, Cut(c, i, extra, horizon), i, Block(c[i].start, extra, false),
                   Block(c[i].start + extra + 1, c[i].subblocks - extra - 1, true))
  {
    TwoForOne(c, i, Block(c[i].start, extra, false), Block(c[i].start + extra + 1, c[i].subblocks - extra - 1, true));
  }

  lemma SplitKeepsTiling(c: seq<Block>, d: seq<Block>, horizon: nat, units: nat, i: nat, x: Block, y: Block)
    requires Tiles(c, horizon, units) && Splits(c, d, i, x, y)
    requires x.start == c[i].start && y.start == x.End() && y.End() == c[i].End() && y.start <= horizon
    ensures Tiles(d, horizon, units)
  {
    forall k | 0 < k < |d| ensures d[k].start == d[k - 1].End() {
      if k > i + 2 {
        assert d[k] == c[k - 1] && d[k - 1] == c[k - 2];
      } else if k < i {
        assert d[k] == c[k] && d[k - 1] == c[k - 1];
      }
    }
  }

  lemma FlagKeepsTiling(c: seq<Block>, horizon: nat, units: nat, i: nat, f: bool)
    requires Tiles(c, horizon, units) && i < |c|
    ensures Tiles(c[i := c[i].(free := f)], horizon, units)
  {
  }

  lemma CutKeepsTiling(c: seq<Block>, horizon: nat, units: nat, i: nat, extra: nat)
    requires Tiles(c, horizon, units)
    requires i < |c| && Fits(c[i], extra)
    ensures Tiles(Cut(c, i, extra, horizon), horizon, units)
  {
    var b := c[i];
    var rest := b.start + extra + 1;
    if b.subblocks > extra && rest <= horizon {
      CutShape(c, i, extra, horizon);
      SplitKeepsTiling(c, Cut(c, i, extra, horizon), horizon, units, i,
                       Block(b.start, extra, false), Block(rest, b.subblocks - extra - 1, true));
    } else {
      FlagKeepsTiling(c, horizon, units, i, false);
    }
  }

  lemma AbsorbKeepsTiling(c: seq<Block>, horizon: nat, units: nat, i: nat)
    requires Tiles(c, horizon, units)
    requires i + 1 < |c|
    ensures Tiles(Absorb(c, i), horizon, units)
  {
    var d := Absorb(c, i);
    forall k | 0 < k < |d| ensures d[k].start == d[k - 1].End() {
      if k > i + 1 {
        assert d[k] == c[k + 1] && d[k - 1] == c[k];
      }
    }
  }

  lemma {:induction false} CoalesceKeepsTiling(c: seq<Block>, horizon: nat, units: nat, i: nat)
    requires Tiles(c, horizon, units)
    requires i < |c|
    ensures Tiles(Coalesce(c, i), horizon, units)
    decreases |c|
  {
    if i + 1 < |c| && c[i + 1].free {
      AbsorbKeepsTiling(c, horizon, units, i);
      CoalesceKeepsTiling(Absorb(c, i), horizon, units, i);
    }
  }

  lemma ReleaseKeepsTiling(c: seq<Block>, horizon: nat, units: nat, i: nat)
    requires Tiles(c, horizon, units)
    requires i < |c|
    ensures Tiles(Release(c, i), horizon, units)
  {
    var freed := c[i := c[i].(free := true)];
    CoalesceKeepsTiling(freed, horizon, units, if i > 0 && c[i - 1].free then i - 1 else i);
  }

  // ---------- The operations never leave two free blocks side by side ----------

  lemma SplitKeepsSeparation(c: seq<Block>, d: seq<Block>, i: nat, x: Block, y: Block)
    requires NoAdjacentFree(c) && Splits(c, d, i, x, y) && c[i].free && !x.free
    ensures NoAdjacentFree(d)
  {
    forall k | 0 < k < |d| ensures !(d[k - 1].free && d[k].free) {
      if k >= i + 2 {
        assert d[k] == c[k - 1];
        assert k > i + 2 ==> d[k - 1] == c[k - 2];
      }
    }
  }

  lemma CutKeepsSeparation(c: seq<Block>, i: nat, extra: nat, horizon: nat)
    requires NoAdjacentFree(c)
    requires i < |c| && Fits(c[i], extra)
    ensures NoAdjacentFree(Cut(c, i, extra, horizon))
  {
    var b := c[i];
    var rest := b.start + extra + 1;
    if b.subblocks > extra && rest <= horizon {
      CutShape(c, i, extra, horizon);
      SplitKeepsSeparation(c, Cut(c, i, extra, horizon), i,
                           Block(b.start, extra, false), Block(rest, b.subblocks - extra - 1, true));
    }
  }

  /** The block indices a release merges: [lo, hi) becomes one free block. */
  function MergeLow(c: seq<Block>, i: nat): nat
    requires i < |c|
  {
    if i > 0 && c[i - 1].free then i - 1 else i
  }

  function MergeHigh(c: seq<Block>, i: nat): nat
    requires i < |c|
  {
    if i + 1 < |c| && c[i + 1].free then i + 2 else i + 1
  }

  /** Subblocks of one block that takes the place of blocks [lo, hi). */
  function MergedSubblocks(c: seq<Block>, lo: nat, hi: nat): nat
    requires lo < hi <= |c|
  {
    if hi == lo + 1 then c[lo].subblocks
    else MergedSubblocks(c, lo, hi - 1) + c[hi - 1].subblocks + 1
  }

  /** The chain with blocks [lo, hi) replaced by one free block over their units. */
  function Merge(c: seq<Block>, lo: nat, hi: nat): seq<Block>
    requires lo < hi <= |c|
  {
    c[..lo] + [Block(c[lo].start, MergedSubblocks(c, lo, hi), true)] + c[hi..]
  }

  lemma {:induction false} MergedSpansItsUnits(c: seq<Block>, horizon: nat, units: nat, lo: nat, hi: nat)
    requires Tiles(c, horizon, units)
    requires lo < hi <= |c|
    ensures c[lo].start + MergedSubblocks(c, lo, hi) + 1 == c[hi - 1].End()
  {
    if lo + 1 < hi {
      MergedSpansItsUnits(c, horizon, units, lo, hi - 1);
    }
  }

  lemma CoalesceStops(c: seq<Block>, i: nat)
    requires i < |c| && (i + 1 < |c| ==> !c[i + 1].free)
    ensures Coalesce(c, i) == c
  {
  }

  lemma CoalesceAbsorbsOne(c: seq<Block>, i: nat)
    requires i + 1 < |c| && c[i].free && c[i + 1].free && (i + 2 < |c| ==> !c[i + 2].free)
    ensures Coalesce(c, i) == Merge(c, i, i + 2)
  {
    assert MergedSubblocks(c, i, i + 2) == MergedSubblocks(c, i, i + 1) + c[i + 1].subblocks + 1;
    assert Absorb(c, i) == Merge(c, i, i + 2);
    CoalesceStops(Absorb(c, i), i);
  }

  lemma CoalesceAbsorbsTwo(c: seq<Block>, i: nat)
    requires i + 2 < |c| && c[i].free && c[i + 1].free && c[i + 2].free && (i + 3 < |c| ==> !c[i + 3].free)
    ensures Coalesce(c, i) == Merge(c, i, i + 3)
  {
    var once := Absorb(c, i);
    assert once[i + 1] == c[i + 2];
    assert i + 2 < |once| ==> once[i + 2] == c[i + 3];
    CoalesceAbsorbsOne(once, i);
    assert once[i].subblocks == MergedSubblocks(c, i, i + 2) by {
      assert MergedSubblocks(c, i, i + 2) == MergedSubblocks(c, i, i + 1) + c[i + 1].subblocks + 1;
    }
    assert MergedSubblocks(once, i, i + 2) == MergedSubblocks(once, i, i + 1) + once[i + 1].subblocks + 1;
    assert Merge(once, i, i + 2) == Merge(c, i, i + 3);
  }

  lemma {:induction false} MergeIgnoresFlags(c: seq<Block>, d: seq<Block>, lo: nat, hi: nat)
    requires lo < hi <= |c| == |d|
    requires forall k :: 0 <= k < |c| ==> c[k].start == d[k].start && c[k].subblocks == d[k].subblocks
    ensures MergedSubblocks(c, lo, hi) == MergedSubblocks(d, lo, hi)
  {
    if lo + 1 < hi {
      MergeIgnoresFlags(c, d, lo, hi - 1);
    }
  }

  /** What a release does to a chain without adjacent free blocks: the freed block and its free
    neighbours become one free block over exactly their units, everything else stays. */
  lemma ReleaseIsOneMerge(c: seq<Block>, i: nat)
    requires NoAdjacentFree(c)
    requires i < |c|
    ensures Release(c, i) == Merge(c, MergeLow(c, i), MergeHigh(c, i))
  {
    var lo, hi := MergeLow(c, i), MergeHigh(c, i);
    var freed := c[i := c[i].(free := true)];
    if hi == lo + 1 {
      CoalesceStops(freed, lo);
      assert freed == Merge(freed, lo, hi);
    } else if hi == lo + 2 {
      CoalesceAbsorbsOne(freed, lo);
    } else {
      CoalesceAbsorbsTwo(freed, lo);
    }
    MergeIgnoresFlags(c, freed, lo, hi);
    assert freed[..lo] == c[..lo] && freed[hi..] == c[hi..];
  }

  /** `d` is `c` with blocks [lo, hi) replaced by the one block `x`. */
  ghost predicate Joins(c: seq<Block>, d: seq<Block>, lo: nat, hi: nat, x: Block) {
    && lo < hi <= |c| && |d| == |c| - (hi - lo) + 1 && d[lo] == x
    && (forall k :: 0 <= k < lo ==> d[k] == c[k])
    && (forall k :: lo < k < |d| ==> d[k] == c[k + (hi - lo - 1)])
  }

  lemma MergeShape(c: seq<Block>, lo: nat, hi: nat)
    requires lo < hi <= |c|
    ensures Joins(c, Merge(c, lo, hi), lo, hi, Block(c[lo].start, MergedSubblocks(c, lo, hi), true))
  {
  }

  lemma JoinKeepsSeparation(c: seq<Block>, d: seq<Block>, lo: nat, hi: nat, x: Block)
    requires NoAdjacentFree(c) && Joins(c, d, lo, hi, x)
    requires lo > 0 ==> !c[lo - 1].free
    requires hi < |c| ==> !c[hi].free
    ensures NoAdjacentFree(d)
  {
    forall k | 0 < k < |d| ensures !(d[k - 1].free && d[k].free) {
      if k > lo {
        assert d[k] == c[k + (hi - lo - 1)];
        assert k > lo + 1 ==> d[k - 1] == c[k - 1 + (hi - lo - 1)];
      }
    }
  }

  /** No free block stands next to those a release merges. */
  lemma MergeEnds(c: seq<Block>, i: nat)
    requires NoAdjacentFree(c) && i < |c|
    ensures var lo, hi := MergeLow(c, i), MergeHigh(c, i);
            (lo > 0 ==> !c[lo - 1].free) && (hi < |c| ==> !c[hi].free)
  {
    if i > 1 {
      assert !(c[(i - 1) - 1].free && c[i - 1].free);
    }
    if i + 2 < |c| {
      assert !(c[(i + 2) - 1].free && c[i + 2].free);
    }
  }

  lemma ReleaseKeepsSeparation(c: seq<Block>, i: nat)
    requires NoAdjacentFree(c) && i < |c|
    ensures NoAdjacentFree(Release(c, i))
  {
    ReleaseIsOneMerge(c, i);
    MergeEnds(c, i);
    var lo, hi := MergeLow(c, i), MergeHigh(c, i);
    MergeShape(c, lo, hi);
    JoinKeepsSeparation(c, Merge(c, lo, hi), lo, hi, Block(c[lo].start, MergedSubblocks(c, lo, hi), true));
  }

  // ---------- Undo ----------

  /** Releasing what was just taken restores the chain: starts, sizes and flags, whether or not the
    block was cut. */
  lemma ReleaseUndoesCut(c: seq<Block>, horizon: nat, units: nat, i: nat, extra: nat)
    requires Tiles(c, horizon, units) && NoAdjacentFree(c)
    requires i < |c| && Fits(c[i], extra)
    ensures i < |Cut(c, i, extra, horizon)|
    ensures Release(Cut(c, i, extra, horizon), i) == c
  {
    var d := Cut(c, i, extra, horizon);
    CutKeepsSeparation(c, i, extra, horizon);
    ReleaseIsOneMerge(d, i);
    assert MergeLow(d, i) == i;
    if |d| == |c| {
      assert MergeHigh(d, i) == i + 1;
    } else {
      assert MergeHigh(d, i) == i + 2;
      assert MergedSubblocks(d, i, i + 2) == MergedSubblocks(d, i, i + 1) + d[i + 1].subblocks + 1;
      assert d[i + 2..] == c[i + 1..];
    }
    assert d[..i] == c[..i];
    assert c == c[..i] + [c[i]] + c[i + 1..];
  }

  lemma TwoBlocksMeanOneUsed(c: seq<Block>)
    requires NoAdjacentFree(c) && |c| > 1
    ensures !c[0].free || !c[1].free
  {
    assert !(c[1 - 1].free && c[1].free);
  }

  /** A chain without adjacent free blocks in which nothing is used is the initial chain. */
  lemma AllFreeIsInitial(c: seq<Block>, horizon: nat, units: nat)
    requires Tiles(c, horizon, units) && NoAdjacentFree(c)
    requires forall i :: 0 <= i < |c| ==> c[i].free
    ensures c == InitialChain(units)
  {
    if |c| > 1 {
      TwoBlocksMeanOneUsed(c);
      assert false;
    }
  }

  // ---------- Used blocks are left alone ----------

  lemma CutKeepsUsed(c: seq<Block>, i: nat, extra: nat, horizon: nat, b: Block)
    requires i < |c| && Fits(c[i], extra) && !b.free
    ensures b in Cut(c, i, extra, horizon) <==>
            b in c || b == Cut(c, i, extra, horizon)[i]
  {
    var d := Cut(c, i, extra, horizon);
    if |d| > |c| {
      assert d == c[..i] + [d[i], d[i + 1]] + c[i + 1..];
      assert c == c[..i] + [c[i]] + c[i + 1..];
    } else {
      assert d == c[..i] + [d[i]] + c[i + 1..];
      assert c == c[..i] + [c[i]] + c[i + 1..];
    }
  }

  lemma UsedAfterMerge(c: seq<Block>, lo: nat, hi: nat, b: Block)
    requires lo < hi <= |c| && !b.free
    ensures b in Merge(c, lo, hi) <==> b in c[..lo] || b in c[hi..]
  {
  }

  lemma MembersOfParts(c: seq<Block>, lo: nat, hi: nat, b: Block)
    requires lo <= hi <= |c|
    ensures b in c <==> b in c[..lo] || b in c[lo..hi] || b in c[hi..]
  {
    assert c == c[..lo] + c[lo..hi] + c[hi..];
  }

  lemma OnlyFreeNeighboursMerge(c: seq<Block>, i: nat, b: Block)
    requires i < |c| && !b.free
    ensures b in c[MergeLow(c, i)..MergeHigh(c, i)] ==> b == c[i]
    ensures c[i] in c[MergeLow(c, i)..MergeHigh(c, i)]
  {
    assert c[MergeLow(c, i)..MergeHigh(c, i)][i - MergeLow(c, i)] == c[i];
  }

  lemma BlockOccursOnce(c: seq<Block>, horizon: nat, units: nat, lo: nat, hi: nat, i: nat)
    requires Tiles(c, horizon, units)
    requires lo <= i < hi <= |c|
    ensures c[i] !in c[..lo] && c[i] !in c[hi..]
  {
    forall k | 0 <= k < |c| && c[k] == c[i] ensures k == i {
      StartsDetermineIndex(c, horizon, units, i, k);
    }
  }

  lemma ReleaseKeepsUsed(c: seq<Block>, horizon: nat, units: nat, i: nat, b: Block)
    requires Tiles(c, horizon, units) && NoAdjacentFree(c)
    requires i < |c| && !b.free
    ensures b in Release(c, i) <==> b in c && b != c[i]
  {
    var lo, hi := MergeLow(c, i), MergeHigh(c, i);
    ReleaseIsOneMerge(c, i);
    UsedAfterMerge(c, lo, hi, b);
    MembersOfParts(c, lo, hi, b);
    OnlyFreeNeighboursMerge(c, i, b);
    BlockOccursOnce(c, horizon, units, lo, hi, i);
  }

  /** Freeing a block that is on the chain and already free changes nothing. */
  lemma ReleaseOfFreeIsNoop(c: seq<Block>, horizon: nat, units: nat, i: nat)
    requires Tiles(c, horizon, units) && NoAdjacentFree(c)
    requires i < |c| && c[i].free
    ensures Release(c, i) == c
  {
    ReleaseIsOneMerge(c, i);
    assert MergeLow(c, i) == i && MergeHigh(c, i) == i + 1;
    assert c == c[..i] + [c[i]] + c[i + 1..];
  }
}
