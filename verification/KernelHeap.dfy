/** The kernel heap allocator of kernel/kmalloc.cpp.

  Block headers live in the heap itself, so they are modelled as two arrays indexed by unit. Only the
  entries at block starts mean anything: merging leaves stale headers behind, and the payload of an
  allocation may overwrite them. `chain` is the ghost sequence of the real blocks. */
module KernelHeap {
  import opened Wrappers
  import opened HeapChain

  /** Where the heap lies and how far `next_block` looks. `headerBytes` is sizeof(Block) and
    `dataOffset` is offsetof(AlignedBlock, align); on i386 they are 8 and 16. */
  datatype Layout = Layout(heapStart: nat, headerBytes: nat, dataOffset: nat, units: nat) {
    predicate Valid() {
      && heapStart % BLOCK_SIZE == 0
      && 0 < headerBytes <= dataOffset <= BLOCK_SIZE / 2
      && units > 0
      && heapStart + BLOCK_SIZE * units <= U32
    }

    /** m_last_block: the source adds the unit count to a Block pointer, so it advances by
      headerBytes, not by BLOCK_SIZE, per unit. */
    function LastBlock(): nat {
      heapStart + headerBytes * units
    }

    /** The last unit whose header does not lie behind LastBlock. */
    function Horizon(): nat {
      headerBytes * units / BLOCK_SIZE
    }

    function HeaderAddress(unit: nat): nat {
      heapStart + BLOCK_SIZE * unit
    }

    function DataAddress(unit: nat): nat {
      HeaderAddress(unit) + dataOffset
    }

    function FirstBlockCapacity(): int {
      BLOCK_SIZE - dataOffset
    }

    /** Bytes an allocation in this block can hold. */
    function Capacity(b: Block): int {
      FirstBlockCapacity() + BLOCK_SIZE * b.subblocks
    }

    /** The subblocks `allocate` asks for, in the wrapping arithmetic it uses. The result is the least
      number of subblocks that makes room for `size` bytes. */
    function ExtraSubblocks(size: u32): (extra: nat)
      requires Valid()
      ensures FirstBlockCapacity() + BLOCK_SIZE * extra >= size
      ensures extra > 0 ==> FirstBlockCapacity() + BLOCK_SIZE * (extra - 1) < size
    {
      var withoutFirst := Sub32(size, FirstBlockCapacity());
      var oneOff := if withoutFirst % BLOCK_SIZE != 0 then 1 else 0;
      if size < FirstBlockCapacity() then 0 else withoutFirst / BLOCK_SIZE + oneOff
    }
  }

  lemma HorizonInside(l: Layout)
    requires l.Valid()
    ensures l.Horizon() < l.units
    ensures forall unit: nat {:trigger l.HeaderAddress(unit)} ::
              l.HeaderAddress(unit) > l.LastBlock() <==> unit > l.Horizon()
    ensures forall unit: nat {:trigger l.HeaderAddress(unit)} ::
              unit <= l.Horizon() <==> BLOCK_SIZE * unit <= l.headerBytes * l.units
  {
    ProductBound(l.headerBytes, 16, l.units);
    UnitsWithin(l.headerBytes * l.units, l.units);
  }

  lemma ProductBound(a: nat, b: nat, units: nat)
    requires a <= b
    ensures a * units <= b * units
  {
    assert b * units == a * units + (b - a) * units;
  }

  lemma UnitsWithin(reach: nat, units: nat)
    requires reach <= 16 * units && units > 0
    ensures reach / BLOCK_SIZE < units
    ensures forall unit: nat :: BLOCK_SIZE * unit > reach <==> unit > reach / BLOCK_SIZE
  {
  }

  /** A block's payload starts `dataOffset` bytes behind a multiple of the block size, and has room up to where the
    next block's header can start. */
  lemma PayloadRoom(l: Layout, b: Block)
    requires l.Valid()
    ensures l.DataAddress(b.start) % BLOCK_SIZE == l.dataOffset
    ensures l.DataAddress(b.start) == l.heapStart + BLOCK_SIZE * b.start + l.dataOffset
    ensures l.DataAddress(b.start) + l.Capacity(b) == l.heapStart + BLOCK_SIZE * b.End()
  {
  }

  /** Asking for subblocks is asking for bytes. */
  lemma FitsIffHoldsBytes(l: Layout, b: Block, size: u32)
    requires l.Valid()
    ensures Fits(b, l.ExtraSubblocks(size)) <==> b.free && l.Capacity(b) >= size
  {
    if l.ExtraSubblocks(size) > 0 && b.subblocks < l.ExtraSubblocks(size) {
      assert b.subblocks <= l.ExtraSubblocks(size) - 1;
    }
  }

  // ---------- The two operations on the chain ----------

  /** Index of the block whose payload starts at `p`, or the length of the chain. */
  function IndexOfData(l: Layout, c: seq<Block>, p: int, from: nat := 0): (i: nat)
    requires from <= |c|
    ensures from <= i <= |c|
    ensures i < |c| ==> l.DataAddress(c[i].start) == p
    ensures forall j :: from <= j < i ==> l.DataAddress(c[j].start) != p
    decreases |c| - from
  {
    if from == |c| || l.DataAddress(c[from].start) == p then from else IndexOfData(l, c, p, from + 1)
  }

  datatype Allocation = Allocation(chain: seq<Block>, address: nat)

  /** The chain and address after `allocate(size)`; None is the out-of-memory panic. */
  function AllocateStep(l: Layout, c: seq<Block>, size: u32): Option<Allocation>
    requires l.Valid()
  {
    var extra := l.ExtraSubblocks(size);
    var i := FirstFit(c, extra);
    if i == |c| then None else Some(Allocation(Cut(c, i, extra, l.Horizon()), l.DataAddress(c[i].start)))
  }

  /** The chain after `deallocate(p)`; None is the panic about an unallocated address. */
  function DeallocateStep(l: Layout, c: seq<Block>, p: int): Option<seq<Block>> {
    var i := IndexOfData(l, c, p);
    if i == |c| then None else Some(Release(c, i))
  }

  // ---------- Headers against the chain ----------

  /** The headers stored at the block starts describe the chain. Other entries are unconstrained. */
  ghost predicate Describes(frees: seq<bool>, sizes: seq<nat>, c: seq<Block>) {
    forall i :: 0 <= i < |c| ==>
      && c[i].start < |frees| && c[i].start < |sizes|
      && frees[c[i].start] == c[i].free
      && sizes[c[i].start] == c[i].subblocks
  }

  /** The chain between cutting block `i` and marking it used. */
  ghost function CutFree(c: seq<Block>, i: nat, extra: nat, horizon: nat): seq<Block>
    requires i < |c| && Fits(c[i], extra)
  {
    var d := Cut(c, i, extra, horizon);
    d[i := d[i].(free := true)]
  }

  lemma CutFreeKeepsTiling(c: seq<Block>, horizon: nat, units: nat, i: nat, extra: nat)
    requires Tiles(c, horizon, units)
    requires i < |c| && Fits(c[i], extra)
    ensures Tiles(CutFree(c, i, extra, horizon), horizon, units)
  {
    CutKeepsTiling(c, horizon, units, i, extra);
  }

  lemma FlagUpdateDescribes(frees: seq<bool>, sizes: seq<nat>, c: seq<Block>, horizon: nat, units: nat, i: nat, f: bool)
    requires Tiles(c, horizon, units) && Describes(frees, sizes, c)
    requires i < |c|
    ensures Describes(frees[c[i].start := f], sizes, c[i := c[i].(free := f)])
  {
    forall j | 0 <= j < |c| && c[j].start == c[i].start ensures j == i {
      StartsDetermineIndex(c, horizon, units, i, j);
    }
  }

  lemma CutFreeSplits(c: seq<Block>, i: nat, extra: nat, horizon: nat)
    requires i < |c| && Fits(c[i], extra) && c[i].subblocks > extra && c[i].start + extra + 1 <= horizon
    ensures Splits(c, CutFree(c, i, extra, horizon), i, Block(c[i].start, extra, true),
                   Block(c[i].start + extra + 1, c[i].subblocks - extra - 1, true))
  {
    CutShape(c, i, extra, horizon);
  }

  /** No other block of the chain starts inside block `i`. */
  lemma OthersStartOutside(c: seq<Block>, horizon: nat, units: nat, i: nat, k: nat)
    requires Tiles(c, horizon, units)
    requires i < |c| && k < |c| && k != i
    ensures !(c[i].start <= c[k].start < c[i].End())
  {
    if k < i {
      StartsIncrease(c, horizon, units, k, i);
    } else {
      StartsIncrease(c, horizon, units, i, k);
    }
  }

  /** A cut writes two headers; no other block of the chain starts at either place. */
  lemma CutDescribes(frees: seq<bool>, sizes: seq<nat>, c: seq<Block>, d: seq<Block>, horizon: nat, units: nat,
                     i: nat, extra: nat)
    requires Tiles(c, horizon, units) && Describes(frees, sizes, c)
    requires i < |c| && c[i].subblocks > extra
    requires Splits(c, d, i, Block(c[i].start, extra, c[i].free),
                    Block(c[i].start + extra + 1, c[i].subblocks - extra - 1, true))
    requires |frees| == |sizes| == units && c[i].End() <= units
    ensures var next := c[i].start + extra + 1;
            Describes(frees[next := true],
                      sizes[c[i].start := extra][next := c[i].subblocks - 1 - extra], d)
  {
    forall k | 0 <= k < |c| && k != i
      ensures !(c[i].start <= c[k].start < c[i].End())
    {
      OthersStartOutside(c, horizon, units, i, k);
    }
  }

  lemma HeadersAfterCut(frees: seq<bool>, sizes: seq<nat>, c: seq<Block>, horizon: nat, units: nat,
                        i: nat, extra: nat)
    requires Tiles(c, horizon, units) && Describes(frees, sizes, c) && |frees| == |sizes| == units
    requires i < |c| && Fits(c[i], extra) && c[i].subblocks > extra && c[i].start + extra + 1 <= horizon
    ensures var next := c[i].start + extra + 1;
            Describes(frees[next := true], sizes[c[i].start := extra][next := c[i].subblocks - 1 - extra],
                      CutFree(c, i, extra, horizon))
    ensures Tiles(CutFree(c, i, extra, horizon), horizon, units)
  {
    CutFreeSplits(c, i, extra, horizon);
    EndsWithin(c, horizon, units, i);
    CutDescribes(frees, sizes, c, CutFree(c, i, extra, horizon), horizon, units, i, extra);
    CutFreeKeepsTiling(c, horizon, units, i, extra);
  }

  /** Adding the successor's subblocks to a header merges the two blocks; the successor's own header
    goes stale. */
  lemma AbsorbDescribes(frees: seq<bool>, sizes: seq<nat>, c: seq<Block>, horizon: nat, units: nat, i: nat)
    requires Tiles(c, horizon, units) && Describes(frees, sizes, c)
    requires i + 1 < |c|
    ensures Describes(frees, sizes[c[i].start := c[i].subblocks + c[i + 1].subblocks + 1], Absorb(c, i))
  {
    var d := Absorb(c, i);
    forall k | 0 <= k < |d| && k != i ensures d[k].start != c[i].start && d[k] in c {
      var m := if k < i then k else k + 1;
      assert d[k] == c[m];
      if c[m].start == c[i].start {
        StartsDetermineIndex(c, horizon, units, i, m);
      }
    }
  }

  // ---------- The allocator ----------

  class Allocator {
    const layout: Layout
    const headerFree: array<bool>
    const headerSubblocks: array<nat>
    ghost var chain: seq<Block>

    ghost predicate HeadersMatch()
      reads this, headerFree, headerSubblocks
    {
      && layout.Valid()
      && headerFree.Length == headerSubblocks.Length == layout.units
      && Tiles(chain, layout.Horizon(), layout.units)
      && Describes(headerFree[..], headerSubblocks[..], chain)
    }

    ghost predicate Valid()
      reads this, headerFree, headerSubblocks
    {
      HeadersMatch() && NoAdjacentFree(chain)
    }

    constructor (heapStart: nat, heapSize: nat, headerBytes: nat, dataOffset: nat)
      requires heapStart % BLOCK_SIZE == 0 && heapStart + heapSize <= U32
      requires 0 < headerBytes <= dataOffset <= BLOCK_SIZE / 2
      requires heapSize >= BLOCK_SIZE
      ensures Valid() && fresh(headerFree) && fresh(headerSubblocks)
      ensures layout == Layout(heapStart, headerBytes, dataOffset, heapSize / BLOCK_SIZE)
      ensures chain == InitialChain(layout.units)
    {
      var blockCount := heapSize / BLOCK_SIZE;
      layout := Layout(heapStart, headerBytes, dataOffset, blockCount);
      headerFree := new bool[blockCount];
      headerSubblocks := new nat[blockCount];
      chain := InitialChain(blockCount);
      new;
      HorizonInside(layout);
      headerSubblocks[0] := blockCount - 1;
      headerFree[0] := true;
    }

    /** next_block: the block behind the one headed at `unit`, judged by its header alone. */
    function NextBlock(unit: nat): Option<nat>
      requires unit < headerSubblocks.Length
      reads headerSubblocks
    {
      var next := unit + headerSubblocks[unit] + 1;
      if layout.HeaderAddress(next) > layout.LastBlock() then None else Some(next)
    }

    /** On the chain, NextBlock is the successor, and it ends exactly at the last block. */
    lemma NextBlockFollowsChain(i: nat)
      requires HeadersMatch()
      requires i < |chain|
      ensures NextBlock(chain[i].start) == if i + 1 < |chain| then Some(chain[i + 1].start) else None
    {
      HorizonInside(layout);
      EndsWithin(chain, layout.Horizon(), layout.units, i);
    }

    method Allocate(size: u32) returns (p: Option<nat>)
      requires Valid()
      modifies this`chain, headerFree, headerSubblocks
      ensures Valid()
      ensures match AllocateStep(layout, old(chain), size)
              case None => p == None && chain == old(chain)
              case Some(a) => p == Some(a.address) && chain == a.chain
    {
      var extraSubblocks := layout.ExtraSubblocks(size);
      ghost var c, i := chain, FirstFit(chain, extraSubblocks);
      var block := FindFit(extraSubblocks);
      if block == None {
        return None;
      }
      Split(block.value, extraSubblocks, i);
      MarkFlag(block.value, i, false);
      assert chain == Cut(c, i, extraSubblocks, layout.Horizon());
      CutKeepsSeparation(c, i, extraSubblocks, layout.Horizon());
      p := Some(layout.DataAddress(block.value));
    }

    /** The search loop of `allocate`. */
    method FindFit(extraSubblocks: nat) returns (block: Option<nat>)
      requires Valid()
      ensures var i := FirstFit(chain, extraSubblocks);
              block == if i < |chain| then Some(chain[i].start) else None
    {
      ghost var i := 0;
      block := Some(0);
      while block.Some? && !(headerFree[block.value] && headerSubblocks[block.value] >= extraSubblocks)
        invariant 0 <= i <= |chain|
        invariant block == if i < |chain| then Some(chain[i].start) else None
        invariant forall j :: 0 <= j < i ==> !Fits(chain[j], extraSubblocks)
        decreases |chain| - i
      {
        NextBlockFollowsChain(i);
        block := NextBlock(block.value);
        i := i + 1;
      }
      assert i == FirstFit(chain, extraSubblocks);
    }

    method Split(block: nat, extraSubblocks: nat, ghost i: nat)
      requires HeadersMatch()
      requires i < |chain| && chain[i].start == block && Fits(chain[i], extraSubblocks)
      modifies this`chain, headerFree, headerSubblocks
      ensures HeadersMatch()
      ensures chain == CutFree(old(chain), i, extraSubblocks, layout.Horizon())
    {
      ghost var c, frees := chain, headerFree[..];
      ghost var sizes: seq<nat> := headerSubblocks[..];
      ghost var cut := CutFree(c, i, extraSubblocks, layout.Horizon());
      if headerSubblocks[block] == extraSubblocks {
        assert chain == cut;
      } else {
        var prevBlocks := headerSubblocks[block];
        assert prevBlocks > extraSubblocks;
        headerSubblocks[block] := extraSubblocks;
        HorizonInside(layout);
        var next := NextBlock(block);
        if next == None {
          headerSubblocks[block] := prevBlocks;
          assert headerSubblocks[..] == sizes;
          assert chain == cut;
        } else {
          WriteRest(next.value, prevBlocks - 1 - extraSubblocks);
          HeadersAfterCut(frees, sizes, c, layout.Horizon(), layout.units, i, extraSubblocks);
          chain := cut;
        }
      }
    }

    /** The header of the block split off. */
    method WriteRest(next: nat, rest: nat)
      requires next < headerFree.Length == headerSubblocks.Length
      modifies headerFree, headerSubblocks
      ensures headerSubblocks[..] == old(headerSubblocks[..])[next := rest]
      ensures headerFree[..] == old(headerFree[..])[next := true]
    {
      headerSubblocks[next] := rest;
      headerFree[next] := true;
    }

    method Deallocate(p: int) returns (ok: bool)
      requires Valid()
      modifies this`chain, headerFree, headerSubblocks
      ensures Valid()
      ensures match DeallocateStep(layout, old(chain), p)
              case None => !ok && chain == old(chain)
              case Some(c) => ok && chain == c
    {
      ghost var i;
      var block, prev;
      block, prev, i := FindData(p);
      if block == None {
        return false;
      }
      ghost var c := chain;
      MarkFlag(block.value, i, true);
      if prev.Some? && headerFree[prev.value] {
        MergeBlocks(prev.value, i - 1);
      } else {
        MergeBlocks(block.value, i);
      }
      assert chain == Release(c, i);
      ReleaseKeepsSeparation(c, i);
      ok := true;
    }

    /** The search loop of `deallocate`: the block whose payload starts at `p`, and the one before. */
    method FindData(p: int) returns (block: Option<nat>, prev: Option<nat>, ghost i: nat)
      requires Valid()
      ensures i == IndexOfData(layout, chain, p)
      ensures block == if i < |chain| then Some(chain[i].start) else None
      ensures prev == if i > 0 then Some(chain[i - 1].start) else None
    {
      i := 0;
      block, prev := Some(0), None;
      while block.Some? && layout.DataAddress(block.value) != p
        invariant 0 <= i <= |chain|
        invariant block == if i < |chain| then Some(chain[i].start) else None
        invariant prev == if i > 0 then Some(chain[i - 1].start) else None
        invariant forall j :: 0 <= j < i ==> layout.DataAddress(chain[j].start) != p
        decreases |chain| - i
      {
        NextBlockFollowsChain(i);
        prev, block := block, NextBlock(block.value);
        i := i + 1;
      }
      assert i == IndexOfData(layout, chain, p);
    }

    method MarkFlag(block: nat, ghost i: nat, isFree: bool)
      requires HeadersMatch()
      requires i < |chain| && chain[i].start == block
      modifies this`chain, headerFree
      ensures HeadersMatch()
      ensures chain == old(chain)[i := old(chain)[i].(free := isFree)]
      ensures forall j :: 0 <= j < |chain| ==> headerFree[chain[j].start] == chain[j].free
    {
      FlagUpdateDescribes(headerFree[..], headerSubblocks[..], chain, layout.Horizon(), layout.units, i, isFree);
      headerFree[block] := isFree;
      chain := chain[i := chain[i].(free := isFree)];
    }

    method MergeBlocks(block: nat, ghost i: nat)
      requires HeadersMatch()
      requires i < |chain| && chain[i].start == block
      modifies this`chain, headerSubblocks
      ensures HeadersMatch()
      ensures chain == Coalesce(old(chain), i)
    {
      NextBlockFollowsChain(i);
      var next := NextBlock(block);
      while next.Some? && headerFree[next.value]
        invariant HeadersMatch()
        invariant i < |chain| && chain[i].start == block
        invariant next == NextBlock(block)
        invariant next == if i + 1 < |chain| then Some(chain[i + 1].start) else None
        invariant Coalesce(chain, i) == Coalesce(old(chain), i)
        decreases |chain|
      {
        AbsorbNext(block, next.value, i);
        NextBlockFollowsChain(i);
        next := NextBlock(block);
      }
    }

    /** One merge: the header takes in the subblocks of the next block and the block itself. */
    method AbsorbNext(block: nat, next: nat, ghost i: nat)
      requires HeadersMatch()
      requires i + 1 < |chain| && chain[i].start == block && chain[i + 1].start == next
      modifies this`chain, headerSubblocks
      ensures HeadersMatch()
      ensures chain == Absorb(old(chain), i)
    {
      AbsorbKeepsTiling(chain, layout.Horizon(), layout.units, i);
      AbsorbDescribes(headerFree[..], headerSubblocks[..], chain, layout.Horizon(), layout.units, i);
      headerSubblocks[block] := headerSubblocks[block] + headerSubblocks[next] + 1;
      chain := Absorb(chain, i);
    }

    /** The owner of a used block may write anything behind its header, stale headers included;
      the allocator never looks there. */
    method WritePayload(unit: nat, isFree: bool, subblocks: nat, ghost i: nat)
      requires Valid()
      requires i < |chain| && !chain[i].free && chain[i].start < unit < chain[i].End()
      modifies headerFree, headerSubblocks
      ensures Valid() && chain == old(chain)
    {
      EndsWithin(chain, layout.Horizon(), layout.units, i);
      forall j | 0 <= j < |chain| ensures chain[j].start != unit {
        if j < i {
          StartsIncrease(chain, layout.Horizon(), layout.units, j, i);
        } else if i < j {
          StartsIncrease(chain, layout.Horizon(), layout.units, i, j);
        }
      }
      headerFree[unit] := isFree;
      headerSubblocks[unit] := subblocks;
    }
  }
}
