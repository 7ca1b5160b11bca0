/** The physical page allocator of kernel/physicalmalloc.cpp: a bitfield over page frames. */
module PhysicalMalloc {
  import opened Arithmetic
  import opened Wrappers
  import opened Bitfields

  const PAGE_SIZE := 0x1000
  const FRAME_COUNT := 8192

  /** The lowest frame at or above `from` that is not taken, or FRAME_COUNT. */
  function LowestFree(taken: set<nat>, from: nat := 0): (f: nat)
    requires from <= FRAME_COUNT
    ensures from <= f <= FRAME_COUNT
    ensures f < FRAME_COUNT ==> f !in taken
    ensures forall g :: from <= g < f ==> g in taken
    decreases FRAME_COUNT - from
  {
    if from == FRAME_COUNT || from !in taken then from else LowestFree(taken, from + 1)
  }

  lemma LowestFreeIs(taken: set<nat>, f: nat)
    requires f < FRAME_COUNT && f !in taken && forall j :: 0 <= j < f ==> j in taken
    ensures LowestFree(taken) == f
  {
  }

  /** The frames that can still be handed out. */
  function FreeFrames(taken: set<nat>): set<nat> {
    set f: nat | f < FRAME_COUNT && f !in taken
  }

  /** The search fails exactly when there is none, and marking what it finds leaves one less. */
  lemma LowestFreeCounts(taken: set<nat>)
    ensures LowestFree(taken) == FRAME_COUNT <==> |FreeFrames(taken)| == 0
    ensures LowestFree(taken) < FRAME_COUNT ==>
              |FreeFrames(taken + {LowestFree(taken)})| == |FreeFrames(taken)| - 1
  {
    var f := LowestFree(taken);
    if f < FRAME_COUNT {
      assert f in FreeFrames(taken);
      assert FreeFrames(taken + {f}) == FreeFrames(taken) - {f};
    } else {
      assert FreeFrames(taken) == {};
    }
  }

  function FrameAddress(start: nat, frame: nat): nat {
    frame * PAGE_SIZE + start
  }

  lemma FrameAddressAligned(start: nat, frame: nat)
    requires start % PAGE_SIZE == 0
    ensures FrameAddress(start, frame) % PAGE_SIZE == 0
  {
  }

  /** The bit that free_physical_page clears for `page`: the 64-bit page number above `start`, cut to the 32
    bits of the bitfield's index. */
  function BitIndex(start: nat, page: nat): nat
    requires page >= start
  {
    (page - start) / PAGE_SIZE % U32
  }

  /** The page passes the assertions of free_physical_page and comes to bit `f`. */
  predicate Names(start: nat, page: nat, f: nat) {
    page % PAGE_SIZE == 0 && page >= start && BitIndex(start, page) == f
  }

  /** Pages 2^44 bytes apart come to the same bit. */
  lemma NamesIff(start: nat, page: nat, f: nat)
    requires start % PAGE_SIZE == 0
    ensures Names(start, page, f) <==> f < U32 && exists k: nat :: page == FrameAddress(start, f + U32 * k)
  {
    if Names(start, page, f) {
      var k := (page - start) / PAGE_SIZE / U32;
      assert page == FrameAddress(start, f + U32 * k);
    }
    if f < U32 && exists k: nat :: page == FrameAddress(start, f + U32 * k) {
      var k: nat :| page == FrameAddress(start, f + U32 * k);
      assert (page - start) / PAGE_SIZE == f + U32 * k;
      QuotientIs(f + U32 * k, U32, k, f);
    }
  }

  /** For pages less than 2^44 bytes up, all that 32-bit addresses can name among them, the bit is the
    frame's own. */
  lemma NearPageNamesItsFrame(start: nat, page: nat, f: nat)
    requires start % PAGE_SIZE == 0 && page < start + PAGE_SIZE * U32
    ensures Names(start, page, f) <==> f < U32 && page == FrameAddress(start, f)
  {
    if Names(start, page, f) {
      assert (page - start) / PAGE_SIZE < U32;
    }
  }

  /** Freeing frame `g` makes exactly it available: the next allocation returns it unless a lower
    frame was available anyway. */
  lemma FreeMakesAvailable(taken: set<nat>, g: nat)
    requires g < FRAME_COUNT && g in taken
    ensures LowestFree(taken - {g}) == Min(g, LowestFree(taken))
  {
    var f, f' := LowestFree(taken), LowestFree(taken - {g});
    forall h | 0 <= h < f' ensures h in taken && h != g {
      assert h in taken - {g};
    }
    assert f' < FRAME_COUNT ==> f' == g || f' !in taken;
  }

  datatype FreeResult = Freed | AssertionFailed | OutOfBounds

  class PhysicalAllocator {
    const start: nat
    const allocations: Bitfield

    ghost predicate Valid() {
      && allocations.Valid() && allocations.size == FRAME_COUNT
      && start % PAGE_SIZE == 0
    }

    /** The frames handed out and not freed. */
    ghost function Outstanding(): (s: set<nat>)
      requires Valid()
      reads allocations.data
    {
      set i: nat | i < FRAME_COUNT && allocations.Bits()[i]
    }

    constructor (start: nat)
      requires start % PAGE_SIZE == 0
      ensures Valid() && this.start == start && fresh(allocations) && fresh(allocations.data)
      ensures Outstanding() == {}
    {
      this.start := start;
      allocations := new Bitfield(FRAME_COUNT);
    }

    /** allocate_physical_page; None is the out-of-memory panic. */
    method AllocatePage() returns (page: Option<nat>)
      requires Valid()
      modifies allocations.data
      ensures var f := LowestFree(old(Outstanding()));
              if f == FRAME_COUNT then
                page == None && Outstanding() == old(Outstanding())
              else
                page == Some(FrameAddress(start, f)) && Outstanding() == old(Outstanding()) + {f}
    {
      ghost var taken := Outstanding();
      var i := 0;
      while i < FRAME_COUNT
        invariant 0 <= i <= FRAME_COUNT
        invariant forall j :: 0 <= j < i ==> j in taken
        invariant Outstanding() == taken && allocations.Bits() == old(allocations.Bits())
      {
        var used := allocations.At(i);
        if !used {
          LowestFreeIs(taken, i);
          MarkTaken(i);
          return Some(i * PAGE_SIZE + start);
        }
        assert i in taken;
        i := i + 1;
      }
      page := None;
    }

    method MarkTaken(i: nat)
      requires Valid() && i < FRAME_COUNT
      modifies allocations.data
      ensures Outstanding() == old(Outstanding()) + {i}
    {
      var _ := allocations.Replace(i, true);
    }

    method MarkFree(i: nat)
      requires Valid() && i < FRAME_COUNT
      modifies allocations.data
      ensures Outstanding() == old(Outstanding()) - {i}
    {
      var _ := allocations.Replace(i, false);
    }

    /** free_physical_page with its assertions; a page that comes to index FRAME_COUNT passes the
      bitfield's own check and is read out of bounds. */
    method FreePage(page: nat) returns (result: FreeResult)
      requires Valid()
      modifies allocations.data
      ensures result == Freed <==> exists f :: f in old(Outstanding()) && Names(start, page, f)
      ensures result == Freed ==> Outstanding() == old(Outstanding()) - {BitIndex(start, page)}
      ensures result != Freed ==> Outstanding() == old(Outstanding())
      ensures result == OutOfBounds <==> Names(start, page, FRAME_COUNT)
    {
      if page % PAGE_SIZE != 0 || page < start {
        return AssertionFailed;
      }
      var asIndex := (page - start) / PAGE_SIZE % U32;
      assert Names(start, page, asIndex);
      if asIndex > FRAME_COUNT {
        return AssertionFailed;
      }
      if asIndex == FRAME_COUNT {
        return OutOfBounds;
      }
      var used := allocations.At(asIndex);
      if !used {
        return AssertionFailed;
      }
      assert asIndex in Outstanding();
      MarkFree(asIndex);
      result := Freed;
    }
  }

  // ---------- Runs, against a ledger of pages ----------

  datatype PageOp = Allocate | Free(page: nat)

  /** The bits that are set, and, kept by the callers, the pages returned and not given back. */
  datatype Pages = Pages(taken: set<nat>, held: set<nat>)

  /** None is a panic, a failed assertion or the read out of bounds. */
  function StepPages(start: nat, s: Pages, op: PageOp): Option<Pages> {
    match op
    case Allocate =>
      var f := LowestFree(s.taken);
      if f == FRAME_COUNT then None else Some(Pages(s.taken + {f}, s.held + {FrameAddress(start, f)}))
    case Free(page) =>
      if page % PAGE_SIZE == 0 && page >= start && BitIndex(start, page) in s.taken then
        Some(Pages(s.taken - {BitIndex(start, page)}, s.held - {page}))
      else None
  }

  function RunPages(start: nat, s: Pages, ops: seq<PageOp>): Option<Pages>
    decreases |ops|
  {
    if ops == [] then Some(s)
    else match StepPages(start, s, ops[0])
      case None => None
      case Some(s') => RunPages(start, s', ops[1..])
  }

  /** The bitmap is the ledger. */
  ghost predicate Matches(start: nat, s: Pages) {
    && (forall f :: f in s.taken ==> f < FRAME_COUNT && FrameAddress(start, f) in s.held)
    && (forall a :: a in s.held ==> exists f :: f in s.taken && a == FrameAddress(start, f))
  }

  lemma AllocateKeepsMatch(start: nat, s: Pages)
    requires Matches(start, s) && StepPages(start, s, Allocate).Some?
    ensures Matches(start, StepPages(start, s, Allocate).value)
    ensures FrameAddress(start, LowestFree(s.taken)) !in s.held
  {
    var f := LowestFree(s.taken);
    var s' := StepPages(start, s, Allocate).value;
    forall a | a in s'.held ensures exists g :: g in s'.taken && a == FrameAddress(start, g) {
      if a in s.held {
        var g :| g in s.taken && a == FrameAddress(start, g);
        assert g in s'.taken;
      } else {
        assert f in s'.taken;
      }
    }
  }

  /** A free that succeeds keeps bitmap and ledger together exactly when the page is less than 2^44 bytes
    up; then it is one that was handed out. */
  lemma FreeKeepsMatchIff(start: nat, s: Pages, page: nat)
    requires start % PAGE_SIZE == 0 && Matches(start, s) && StepPages(start, s, Free(page)).Some?
    ensures Matches(start, StepPages(start, s, Free(page)).value) <==> page < start + PAGE_SIZE * U32
    ensures page < start + PAGE_SIZE * U32 <==> page in s.held
  {
    var f := BitIndex(start, page);
    var s' := StepPages(start, s, Free(page)).value;
    assert FrameAddress(start, f) in s.held;
    if page < start + PAGE_SIZE * U32 {
      NearPageNamesItsFrame(start, page, f);
      forall a | a in s'.held ensures exists g :: g in s'.taken && a == FrameAddress(start, g) {
        var g :| g in s.taken && a == FrameAddress(start, g);
        assert g in s'.taken;
      }
    } else {
      forall g | g in s.taken ensures page != FrameAddress(start, g) {
        assert g < FRAME_COUNT;
      }
      assert FrameAddress(start, f) in s'.held;
      forall g | g in s'.taken ensures FrameAddress(start, f) != FrameAddress(start, g) {
        assert g != f;
      }
    }
  }

  /** Over every run whose frees name pages in reach of the bitfield, the bitmap is exactly the set of
    pages returned and not given back. */
  lemma {:induction false} RunKeepsMatch(start: nat, s: Pages, ops: seq<PageOp>)
    requires start % PAGE_SIZE == 0 && Matches(start, s) && RunPages(start, s, ops).Some?
    requires forall k :: 0 <= k < |ops| && ops[k].Free? ==> ops[k].page < start + PAGE_SIZE * U32
    ensures Matches(start, RunPages(start, s, ops).value)
    decreases |ops|
  {
    if ops != [] {
      match ops[0] {
        case Allocate => AllocateKeepsMatch(start, s);
        case Free(page) => FreeKeepsMatchIff(start, s, page);
      }
      RunKeepsMatch(start, StepPages(start, s, ops[0]).value, ops[1..]);
    }
  }

  /** A page 2^44 bytes above the first one frees it behind its holder's back, and it is handed out twice. */
  lemma FarFreeHandsOutTwice(start: nat)
    requires start % PAGE_SIZE == 0
    ensures var s := RunPages(start, Pages({}, {}), [Allocate, Free(start + PAGE_SIZE * U32)]);
            && s.Some? && start in s.value.held
            && LowestFree(s.value.taken) == 0 && FrameAddress(start, 0) == start
  {
    var far := start + PAGE_SIZE * U32;
    var s0 := Pages({}, {});
    var s1 := Pages({0}, {start});
    LowestFreeIs({}, 0);
    assert {} + {0} == {0} && {} + {FrameAddress(start, 0)} == {start};
    assert StepPages(start, s0, Allocate) == Some(s1);
    assert BitIndex(start, far) == 0;
    assert StepPages(start, s1, Free(far)) == Some(Pages({0} - {0}, {start} - {far}));
    LowestFreeIs({0} - {0}, 0);
    assert [Allocate, Free(far)][1..] == [Free(far)] && [Free(far)][1..] == [];
    assert RunPages(start, s1, [Free(far)]) == RunPages(start, Pages({0} - {0}, {start} - {far}), []);
  }
}
