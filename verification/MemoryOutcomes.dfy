/** When the kernel's memory operations succeed, and what user code can do with a page after them. */
module MemoryOutcomes {
  import opened Wrappers
  import opened Bits
  import opened Paging
  import opened PhysicalMalloc
  import opened AddressSpace
  import opened Isolation
  import opened IsolationRuns

  // ---------- When the operations succeed ----------

  /** The frames a mapping needs: the page, and a page table if there is none for its directory entry. */
  function FramesNeeded(phys: Phys, dir: nat, va: u32): nat {
    if Bit(Word(phys, dir, DirIndex(va)), 0) then 1 else 2
  }

  /** `map_user_memory` succeeds exactly below _kernel_start and with frames enough; nothing else can fail. */
  lemma MapUserSucceedsIff(env: Env, m: Machine, p: nat, va: u32)
    requires p < |m.processes|
    ensures MapUser(env, m, p, va).Some? <==>
            && va < env.kernelStart
            && |FreeFrames(m.taken)| >= FramesNeeded(m.phys, m.processes[p].mmuBase, va)
  {
    LowestFreeCounts(m.taken);
    LowestFreeCounts(m.taken + {LowestFree(m.taken)});
  }

  /** A process can be created exactly when there is a frame for its directory. */
  lemma CreateSucceedsIff(env: Env, m: Machine)
    ensures CreateProcess(env, m).Some? <==> |FreeFrames(m.taken)| >= 1
  {
    LowestFreeCounts(m.taken);
  }

  /** `set_user_mem_no_write` succeeds exactly on pages that the processor translates, and in the page of Temp,
    where the slot is mapped while it looks. */
  lemma NoWriteSucceedsIff(env: Env, m: Machine, roles: Roles, p: nat, va: u32)
    requires Consistent(env, m, roles) && p < |m.processes|
    ensures NoWrite(env, m, p, va).Some? <==> InTempPage(va) || Walk(m.phys, m.processes[p].mmuBase, va).Some?
  {
    if InTempPage(va) {
      NoWriteOfTempChangesNothing(env, m, roles, p, va);
    } else {
      NoWriteIsOneWrite(env, m, roles, p, va);
    }
  }

  // ---------- What user code can do with the page ----------

  lemma SamePageSameWalk(phys: Phys, dir: nat, va: u32, va': u32)
    requires PageOf(va) == PageOf(va')
    ensures Walk(phys, dir, va) == Walk(phys, dir, va')
  {
    SamePageIffSameIndices(va, va');
  }

  /** A page just mapped reads as zeros and takes stores, at every one of its addresses. */
  lemma MappedPageUsable(env: Env, m: Machine, roles: Roles, p: nat, va: u32, va': u32, value: nat)
    requires Consistent(env, m, roles) && p < |m.processes| && va < KERNEL_BASE && PageOf(va') == PageOf(va)
    requires MapUser(env, m, p, va).Some?
    ensures var m' := MapUser(env, m, p, va).value;
            p < |m'.processes| && UserLoad(m', p, va') == Some(0) && UserStore(m', p, va', value).Some?
  {
    var roles' := MapUserChangesOneTranslation(env, m, roles, p, va);
    var m' := MapUser(env, m, p, va).value;
    SamePageSameWalk(m'.phys, m'.processes[p].mmuBase, va, va');
  }

  /** A protected page reads as before and faults on every store. */
  lemma ProtectedPageFaults(env: Env, m: Machine, roles: Roles, p: nat, va: u32, va': u32, value: nat)
    requires Consistent(env, m, roles) && p < |m.processes| && va < KERNEL_BASE && PageOf(va') == PageOf(va)
    requires NoWrite(env, m, p, va).Some?
    ensures var m' := NoWrite(env, m, p, va).value;
            p < |m'.processes| && UserLoad(m', p, va') == UserLoad(m, p, va') && UserStore(m', p, va', value) == None
  {
    NoWriteChangesOnePermission(env, m, roles, p, va);
    var m' := NoWrite(env, m, p, va).value;
    SamePageSameWalk(m.phys, m.processes[p].mmuBase, va, va');
    SamePageSameWalk(m'.phys, m'.processes[p].mmuBase, va, va');
    NoWriteIsOneWrite(env, m, roles, p, va);
    IndicesSplitAddress(va);
    WalkReads(env, m, roles, p, DirIndex(va), TableIndex(va));
    var t := Walk(m.phys, m.processes[p].mmuBase, va).value;
    if t.user {
      UserFrame(env, m, roles, p, DirIndex(va), TableIndex(va));
    }
  }

  /** User code reaches nothing from 0xC0000000 on, in whatever consistent state. */
  lemma KernelHalfFaults(env: Env, m: Machine, roles: Roles, p: nat, va: u32, value: nat)
    requires Consistent(env, m, roles) && p < |m.processes| && va >= KERNEL_BASE
    ensures UserLoad(m, p, va) == None && UserStore(m, p, va, value) == None
  {
    IndicesSplitAddress(va);
    WalkReads(env, m, roles, p, DirIndex(va), TableIndex(va));
  }
}
