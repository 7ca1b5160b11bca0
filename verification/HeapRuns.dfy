/** What the allocator promises its callers over whole runs of `allocate` and `deallocate`. */
module HeapRuns {
  import opened Wrappers
  import opened HeapChain
  import opened KernelHeap

  datatype HeapOp = Alloc(size: u32) | Free(p: int)

  /** The chain, and the addresses handed out and not yet freed with the sizes asked for. */
  datatype HeapState = Running(chain: seq<Block>, live: map<int, u32>) | Panicked

  function InitialState(l: Layout): HeapState
    requires l.Valid()
  {
    Running(InitialChain(l.units), map[])
  }

  function StepHeap(l: Layout, s: HeapState, op: HeapOp): HeapState
    requires l.Valid()
  {
    match (s, op)
    case (Panicked, _) => Panicked
    case (Running(c, live), Alloc(size)) =>
      (match AllocateStep(l, c, size)
       case None => Panicked
       case Some(a) => Running(a.chain, live[a.address := size]))
    case (Running(c, live), Free(p)) =>
      (match DeallocateStep(l, c, p)
       case None => Panicked
       case Some(d) => Running(d, live - {p}))
  }

  function RunHeap(l: Layout, s: HeapState, ops: seq<HeapOp>): HeapState
    requires l.Valid()
    decreases |ops|
  {
    if ops == [] then s else RunHeap(l, StepHeap(l, s, ops[0]), ops[1..])
  }

  /** Block `b` is the used block that carries the live allocation at `p`. */
  ghost predicate Carries(l: Layout, c: seq<Block>, b: Block, p: int, size: u32) {
    b in c && !b.free && l.DataAddress(b.start) == p && l.Capacity(b) >= size
  }

  ghost predicate SafeHeap(l: Layout, s: HeapState)
    requires l.Valid()
  {
    s.Running? ==>
      && Tiles(s.chain, l.Horizon(), l.units)
      && NoAdjacentFree(s.chain)
      && (forall b :: b in s.chain && !b.free ==> l.DataAddress(b.start) in s.live)
      && (forall p :: p in s.live ==> exists b :: Carries(l, s.chain, b, p, s.live[p]))
  }

  // ---------- Addresses on the chain ----------

  lemma IndexOfBlock(l: Layout, c: seq<Block>, b: Block) returns (i: nat)
    requires l.Valid() && Tiles(c, l.Horizon(), l.units)
    requires b in c
    ensures i < |c| && c[i] == b && i == IndexOfData(l, c, l.DataAddress(b.start))
  {
    i :| 0 <= i < |c| && c[i] == b;
    var j := IndexOfData(l, c, l.DataAddress(b.start));
    StartsDetermineIndex(c, l.Horizon(), l.units, i, j);
  }

  // ---------- Every step keeps the heap safe ----------

  lemma AllocKeepsSafe(l: Layout, s: HeapState, size: u32)
    requires l.Valid() && SafeHeap(l, s) && s.Running?
    ensures SafeHeap(l, StepHeap(l, s, Alloc(size)))
  {
    var extra := l.ExtraSubblocks(size);
    var i := FirstFit(s.chain, extra);
    if i < |s.chain| {
      var t := StepHeap(l, s, Alloc(size));
      var d := t.chain;
      CutKeepsTiling(s.chain, l.Horizon(), l.units, i, extra);
      CutKeepsSeparation(s.chain, i, extra, l.Horizon());
      var p := l.DataAddress(s.chain[i].start);
      FitsIffHoldsBytes(l, s.chain[i], size);
      assert Carries(l, d, d[i], p, size);
      forall b | b in d && !b.free ensures l.DataAddress(b.start) in t.live {
        CutKeepsUsed(s.chain, i, extra, l.Horizon(), b);
      }
      forall q | q in t.live ensures exists b :: Carries(l, d, b, q, t.live[q]) {
        if q != p {
          var b :| Carries(l, s.chain, b, q, s.live[q]);
          CutKeepsUsed(s.chain, i, extra, l.Horizon(), b);
          assert Carries(l, d, b, q, t.live[q]);
        }
      }
    }
  }

  lemma FreeKeepsSafe(l: Layout, s: HeapState, p: int)
    requires l.Valid() && SafeHeap(l, s) && s.Running?
    ensures SafeHeap(l, StepHeap(l, s, Free(p)))
  {
    var i := IndexOfData(l, s.chain, p);
    if i < |s.chain| {
      var t := StepHeap(l, s, Free(p));
      ReleaseKeepsTiling(s.chain, l.Horizon(), l.units, i);
      ReleaseKeepsSeparation(s.chain, i);
      forall b | b in t.chain && !b.free ensures l.DataAddress(b.start) in t.live {
        ReleaseKeepsUsed(s.chain, l.Horizon(), l.units, i, b);
        var k := IndexOfBlock(l, s.chain, b);
      }
      forall q | q in t.live ensures exists b :: Carries(l, t.chain, b, q, t.live[q]) {
        var b :| Carries(l, s.chain, b, q, s.live[q]);
        ReleaseKeepsUsed(s.chain, l.Horizon(), l.units, i, b);
        assert Carries(l, t.chain, b, q, t.live[q]);
      }
    }
  }

  /** Every state reached from the initial heap, by any sequence of calls, is safe. */
  lemma {:induction false} RunKeepsHeapSafe(l: Layout, s: HeapState, ops: seq<HeapOp>)
    requires l.Valid() && SafeHeap(l, s)
    ensures SafeHeap(l, RunHeap(l, s, ops))
    decreases |ops|
  {
    if ops != [] {
      if s.Running? {
        match ops[0]
        case Alloc(size) => AllocKeepsSafe(l, s, size);
        case Free(p) => FreeKeepsSafe(l, s, p);
      }
      RunKeepsHeapSafe(l, StepHeap(l, s, ops[0]), ops[1..]);
    }
  }

  lemma InitialHeapSafe(l: Layout)
    requires l.Valid()
    ensures SafeHeap(l, InitialState(l))
  {
    HorizonInside(l);
  }

  // ---------- What a safe heap means to its callers ----------

  predicate Apart(aFrom: int, aLen: int, bFrom: int, bLen: int) {
    aFrom + aLen <= bFrom || bFrom + bLen <= aFrom
  }

  lemma DistinctBlocksApart(l: Layout, c: seq<Block>, a: Block, b: Block)
    requires l.Valid() && Tiles(c, l.Horizon(), l.units)
    requires a in c && b in c && a != b
    ensures a.End() <= b.start || b.End() <= a.start
  {
    var i := IndexOfBlock(l, c, a);
    var k := IndexOfBlock(l, c, b);
    if k < i {
      StartsIncrease(c, l.Horizon(), l.units, k, i);
    } else {
      StartsIncrease(c, l.Horizon(), l.units, i, k);
    }
  }

  /** A payload stays inside the region and off every header. */
  lemma PayloadClearOfHeaders(l: Layout, c: seq<Block>, b: Block, p: int, size: u32)
    requires l.Valid() && Tiles(c, l.Horizon(), l.units)
    requires Carries(l, c, b, p, size)
    ensures l.heapStart <= p && p + size <= l.heapStart + BLOCK_SIZE * l.units
    ensures forall h :: h in c ==> Apart(p, size, l.HeaderAddress(h.start), l.headerBytes)
  {
    var i := IndexOfBlock(l, c, b);
    EndsWithin(c, l.Horizon(), l.units, i);
    forall h | h in c ensures Apart(p, size, l.HeaderAddress(h.start), l.headerBytes) {
      if h != b {
        DistinctBlocksApart(l, c, b, h);
      }
    }
  }

  lemma PayloadsApart(l: Layout, c: seq<Block>, a: Block, b: Block, p: int, m: u32, q: int, n: u32)
    requires l.Valid() && Tiles(c, l.Horizon(), l.units)
    requires Carries(l, c, a, p, m) && Carries(l, c, b, q, n) && p != q
    ensures Apart(p, m, q, n)
  {
    DistinctBlocksApart(l, c, a, b);
  }

  /** Bytes of live allocations lie inside the heap, clear of every header on the chain and clear of
    each other. */
  lemma LiveAllocationsDisjoint(l: Layout, ops: seq<HeapOp>, p: int, q: int)
    requires l.Valid()
    requires var s := RunHeap(l, InitialState(l), ops); s.Running? && p in s.live && q in s.live
    ensures var s := RunHeap(l, InitialState(l), ops);
            && l.heapStart <= p && p + s.live[p] <= l.heapStart + BLOCK_SIZE * l.units
            && (forall b :: b in s.chain ==> Apart(p, s.live[p], l.HeaderAddress(b.start), l.headerBytes))
            && (p != q ==> Apart(p, s.live[p], q, s.live[q]))
  {
    InitialHeapSafe(l);
    RunKeepsHeapSafe(l, InitialState(l), ops);
    var s := RunHeap(l, InitialState(l), ops);
    var bp :| Carries(l, s.chain, bp, p, s.live[p]);
    var bq :| Carries(l, s.chain, bq, q, s.live[q]);
    PayloadClearOfHeaders(l, s.chain, bp, p, s.live[p]);
    if p != q {
      PayloadsApart(l, s.chain, bp, bq, p, s.live[p], q, s.live[q]);
    }
  }

  /** Once everything handed out has been freed, in whatever order, the heap is again one free block
    over all its units. */
  lemma EverythingFreedRestoresHeap(l: Layout, ops: seq<HeapOp>)
    requires l.Valid()
    requires RunHeap(l, InitialState(l), ops).Running? && RunHeap(l, InitialState(l), ops).live == map[]
    ensures RunHeap(l, InitialState(l), ops) == InitialState(l)
  {
    InitialHeapSafe(l);
    RunKeepsHeapSafe(l, InitialState(l), ops);
    var s := RunHeap(l, InitialState(l), ops);
    forall i | 0 <= i < |s.chain| ensures s.chain[i].free {
      assert s.chain[i] in s.chain;
    }
    AllFreeIsInitial(s.chain, l.Horizon(), l.units);
  }

  /** `allocate` panics only when no free block on the chain holds that many bytes, and otherwise
    returns the lowest such block. */
  lemma AllocateIsFirstFit(l: Layout, c: seq<Block>, size: u32)
    requires l.Valid() && Tiles(c, l.Horizon(), l.units)
    ensures AllocateStep(l, c, size).None? <==>
            forall b :: b in c && b.free ==> l.Capacity(b) < size
    ensures AllocateStep(l, c, size).Some? ==>
            var p := AllocateStep(l, c, size).value.address;
            && (exists b :: b in c && b.free && l.Capacity(b) >= size && p == l.DataAddress(b.start))
            && (forall b :: b in c && b.free && l.Capacity(b) >= size ==> p <= l.DataAddress(b.start))
  {
    var extra := l.ExtraSubblocks(size);
    var i := FirstFit(c, extra);
    forall b ensures Fits(b, extra) <==> b.free && l.Capacity(b) >= size {
      FitsIffHoldsBytes(l, b, size);
    }
    if i < |c| {
      assert c[i] in c;
      forall b | b in c && Fits(b, extra) ensures c[i].start <= b.start {
        var k := IndexOfBlock(l, c, b);
        if i < k {
          StartsIncrease(c, l.Horizon(), l.units, i, k);
        }
      }
    }
  }

  lemma AllocLeavesBlock(l: Layout, s: HeapState, size: u32, p: int, b: Block)
    requires l.Valid() && SafeHeap(l, s) && s.Running?
    requires p in s.live && Carries(l, s.chain, b, p, s.live[p])
    requires StepHeap(l, s, Alloc(size)).Running?
    ensures p in StepHeap(l, s, Alloc(size)).live && StepHeap(l, s, Alloc(size)).live[p] == s.live[p]
    ensures b in StepHeap(l, s, Alloc(size)).chain
  {
    var extra := l.ExtraSubblocks(size);
    var i := FirstFit(s.chain, extra);
    CutKeepsUsed(s.chain, i, extra, l.Horizon(), b);
    assert s.chain[i] in s.chain;
    DistinctBlocksApart(l, s.chain, s.chain[i], b);
  }

  lemma FreeLeavesOtherBlock(l: Layout, s: HeapState, q: int, p: int, b: Block)
    requires l.Valid() && SafeHeap(l, s) && s.Running?
    requires p in s.live && Carries(l, s.chain, b, p, s.live[p])
    requires p != q && StepHeap(l, s, Free(q)).Running?
    ensures p in StepHeap(l, s, Free(q)).live && StepHeap(l, s, Free(q)).live[p] == s.live[p]
    ensures b in StepHeap(l, s, Free(q)).chain
  {
    ReleaseKeepsUsed(s.chain, l.Horizon(), l.units, IndexOfData(l, s.chain, q), b);
  }

  /** A live address can always be freed; other calls leave its block where it is. */
  lemma LiveAllocationUndisturbed(l: Layout, s: HeapState, op: HeapOp, p: int, b: Block)
    requires l.Valid() && SafeHeap(l, s) && s.Running?
    requires p in s.live && Carries(l, s.chain, b, p, s.live[p])
    ensures StepHeap(l, s, Free(p)).Running?
    ensures op != Free(p) && StepHeap(l, s, op).Running? ==>
            && p in StepHeap(l, s, op).live && StepHeap(l, s, op).live[p] == s.live[p]
            && b in StepHeap(l, s, op).chain
  {
    var j := IndexOfBlock(l, s.chain, b);
    if op != Free(p) && StepHeap(l, s, op).Running? {
      match op
      case Alloc(size) => AllocLeavesBlock(l, s, size, p, b);
      case Free(q) => FreeLeavesOtherBlock(l, s, q, p, b);
    }
  }

  /** An allocation that is freed at once leaves the heap exactly as it was. */
  lemma FreeUndoesAlloc(l: Layout, s: HeapState, size: u32)
    requires l.Valid() && SafeHeap(l, s) && s.Running?
    requires AllocateStep(l, s.chain, size).Some?
    ensures var p := AllocateStep(l, s.chain, size).value.address;
            StepHeap(l, StepHeap(l, s, Alloc(size)), Free(p)) == s
  {
    var extra := l.ExtraSubblocks(size);
    var i := FirstFit(s.chain, extra);
    var t := StepHeap(l, s, Alloc(size));
    var p := l.DataAddress(s.chain[i].start);
    CutKeepsTiling(s.chain, l.Horizon(), l.units, i, extra);
    var k := IndexOfBlock(l, t.chain, t.chain[i]);
    StartsDetermineIndex(t.chain, l.Horizon(), l.units, i, k);
    ReleaseUndoesCut(s.chain, l.Horizon(), l.units, i, extra);
    if p in s.live {
      var b :| Carries(l, s.chain, b, p, s.live[p]);
      var j := IndexOfBlock(l, s.chain, b);
      StartsDetermineIndex(s.chain, l.Horizon(), l.units, i, j);
      assert false;
    }
    assert s.live[p := size] - {p} == s.live;
  }

  /** A second free of the same address is harmless or caught: either its header has been merged
    away and `deallocate` panics, or the block is still on the chain and nothing changes. */
  lemma DoubleFreeHarmless(l: Layout, s: HeapState, p: int)
    requires l.Valid() && SafeHeap(l, s) && s.Running? && p !in s.live
    ensures StepHeap(l, s, Free(p)) == Panicked || StepHeap(l, s, Free(p)) == s
  {
    var i := IndexOfData(l, s.chain, p);
    if i < |s.chain| {
      assert s.chain[i] in s.chain;
      ReleaseOfFreeIsNoop(s.chain, l.Horizon(), l.units, i);
      assert s.live - {p} == s.live;
    }
  }

  /** Because m_last_block advances by sizeof(Block) per unit, the units behind the horizon can never be cut
    apart. An allocation takes exactly the subblocks it asks for if and only if the block found has exactly as
    many or the rest starts no further into the heap than a header's size for every unit; otherwise it takes
    everything up to the end of the heap. */
  lemma AllocationExactIff(l: Layout, c: seq<Block>, size: u32)
    requires l.Valid() && Tiles(c, l.Horizon(), l.units)
    requires AllocateStep(l, c, size).Some?
    ensures var extra := l.ExtraSubblocks(size);
            var i, d := FirstFit(c, extra), AllocateStep(l, c, size).value.chain;
            && |c| <= |d| && d[i].start == c[i].start && !d[i].free
            && (d[i].subblocks == extra <==>
                  c[i].subblocks == extra || BLOCK_SIZE * (c[i].start + extra + 1) <= l.headerBytes * l.units)
            && (d[i].subblocks != extra ==> |d| == |c| == i + 1 && d[i].subblocks == l.units - c[i].start - 1)
  {
    var extra := l.ExtraSubblocks(size);
    var i := FirstFit(c, extra);
    HorizonInside(l);
    assert l.HeaderAddress(c[i].start + extra + 1) >= l.heapStart;
    EndsWithin(c, l.Horizon(), l.units, i);
  }

  /** A heap of 64 units on i386: asking for 1000 of its 2048 bytes leaves nothing for one more byte. */
  lemma HalfTheHeapIsAllOfIt()
    ensures var l := Layout(0x100000, 8, 16, 64);
            && RunHeap(l, InitialState(l), [Alloc(1000)]).Running?
            && RunHeap(l, InitialState(l), [Alloc(1000), Alloc(1)]) == Panicked
  {
    var l := Layout(0x100000, 8, 16, 64);
    var s0 := InitialState(l);
    var s1 := StepHeap(l, s0, Alloc(1000));
    assert l.ExtraSubblocks(1000) == 31;
    assert FirstFit(s0.chain, 31) == 0;
    assert s1.chain == [Block(0, 63, false)];
    assert AllocateStep(l, s1.chain, 1) == None;
    var s2 := StepHeap(l, s1, Alloc(1));
    assert [Alloc(1000)][1..] == [];
    assert RunHeap(l, s1, []) == s1;
    assert [Alloc(1000), Alloc(1)][1..] == [Alloc(1)];
    assert [Alloc(1)][1..] == [];
    assert RunHeap(l, s1, [Alloc(1)]) == RunHeap(l, s2, []);
  }
}
