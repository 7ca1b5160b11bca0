/** What the kernel's memory operations do to translations and memory contents, and what every run of
  them keeps. */
module IsolationRuns {
  import opened Wrappers
  import opened Bits
  import opened Paging
  import opened PhysicalMalloc
  import opened AddressSpace
  import opened Isolation

  // ---------- One operation ----------

  ghost predicate SameWalk(m: Machine, m': Machine, q: nat, va: u32)
    requires q < |m.processes| && q < |m'.processes|
  {
    Walk(m'.phys, m'.processes[q].mmuBase, va) == Walk(m.phys, m.processes[q].mmuBase, va)
  }

  /** Translations of all pages but the one of `va` in process `p` are the same. */
  ghost predicate OthersSame(m: Machine, m': Machine, p: nat, va: u32) {
    && |m'.processes| == |m.processes|
    && forall q, va': u32 :: 0 <= q < |m.processes| && (q != p || PageOf(va') != PageOf(va)) ==>
         SameWalk(m, m', q, va')
  }

  lemma OthersSameByIndices(m: Machine, m': Machine, p: nat, va: u32)
    requires |m'.processes| == |m.processes|
    requires forall q :: 0 <= q < |m.processes| ==> m'.processes[q].mmuBase == m.processes[q].mmuBase
    requires forall q, dj, tj {:trigger WalkAt(m'.phys, m.processes[q].mmuBase, dj, tj)} ::
               0 <= q < |m.processes| && 0 <= dj < ENTRIES && 0 <= tj < ENTRIES
               && (q != p || dj != DirIndex(va) || tj != TableIndex(va)) ==>
                 WalkAt(m'.phys, m.processes[q].mmuBase, dj, tj) == WalkAt(m.phys, m.processes[q].mmuBase, dj, tj)
    ensures OthersSame(m, m', p, va)
  {
    forall q, va': u32 | 0 <= q < |m.processes| && (q != p || PageOf(va') != PageOf(va))
      ensures SameWalk(m, m', q, va')
    {
      IndicesSplitAddress(va');
      SamePageIffSameIndices(va, va');
    }
  }

  /** `map_user_memory` below the kernel: exactly the translations of the page of `va` in process `p`
    change, to a writable user mapping of a frame that was free and holds zeros. */
  lemma MapUserChangesOneTranslation(env: Env, m: Machine, roles: Roles, p: nat, va: u32)
    returns (roles': Roles)
    requires Consistent(env, m, roles) && p < |m.processes| && va < KERNEL_BASE
    requires MapUser(env, m, p, va).Some?
    ensures var m' := MapUser(env, m, p, va).value;
            && Consistent(env, m', roles')
            && OthersSame(m, m', p, va)
            && var t := Walk(m'.phys, m'.processes[p].mmuBase, va);
               && t.Some? && t.value.writable && t.value.user
               && env.IsFrame(t.value.frame) && t.value.frame !in roles
               && forall i :: 0 <= i < ENTRIES ==> Word(m'.phys, t.value.frame, i) == 0
  {
    IndicesSplitAddress(va);
    var m' := MapUser(env, m, p, va).value;
    roles' := MapAtEffect(env, m, roles, p, DirIndex(va), TableIndex(va));
    OthersSameByIndices(m, m', p, va);
  }

  /** map_user_memory does not clear a new page table. Other translations through it stay absent
    exactly when the frame it is made from has no present word; a frame full of zeros is such a one. */
  lemma NewTableKeepsOthersIff(env: Env, m: Machine, p: nat, di: nat, ti: nat)
    requires env.Valid() && p < |m.processes| && di < ENTRIES && ti < ENTRIES
    requires forall a :: env.IsFrame(a) ==> a in m.phys && |m.phys[a]| == ENTRIES
    requires env.IsFrame(m.processes[p].mmuBase) && !Bit(Word(m.phys, m.processes[p].mmuBase, di), 0)
    requires m.processes[p].mmuBase != FrameAddress(env.start, LowestFree(m.taken))
    requires MapAt(env, m, p, di, ti).Some?
    ensures var dir, t := m.processes[p].mmuBase, FrameAddress(env.start, LowestFree(m.taken));
            (forall tj :: 0 <= tj < ENTRIES && tj != ti ==>
               WalkAt(MapAt(env, m, p, di, ti).value.phys, dir, di, tj) == WalkAt(m.phys, dir, di, tj))
            <==> (forall tj :: 0 <= tj < ENTRIES && tj != ti ==> !Bit(Word(m.phys, t, tj), 0))
  {
    var dir, t := m.processes[p].mmuBase, FrameAddress(env.start, LowestFree(m.taken));
    var phys' := MapAt(env, m, p, di, ti).value.phys;
    forall tj | 0 <= tj < ENTRIES && tj != ti
      ensures WalkAt(phys', dir, di, tj) == WalkAt(m.phys, dir, di, tj) <==> !Bit(Word(m.phys, t, tj), 0)
    {
      NewTableWalk(env, m, p, di, ti, tj);
    }
  }

  lemma NewTableWalk(env: Env, m: Machine, p: nat, di: nat, ti: nat, tj: nat)
    requires env.Valid() && p < |m.processes| && di < ENTRIES && ti < ENTRIES && tj < ENTRIES && tj != ti
    requires forall a :: env.IsFrame(a) ==> a in m.phys && |m.phys[a]| == ENTRIES
    requires env.IsFrame(m.processes[p].mmuBase) && !Bit(Word(m.phys, m.processes[p].mmuBase, di), 0)
    requires m.processes[p].mmuBase != FrameAddress(env.start, LowestFree(m.taken))
    requires MapAt(env, m, p, di, ti).Some?
    ensures var dir, t := m.processes[p].mmuBase, FrameAddress(env.start, LowestFree(m.taken));
            && WalkAt(m.phys, dir, di, tj) == None
            && (WalkAt(MapAt(env, m, p, di, ti).value.phys, dir, di, tj).Some? <==> Bit(Word(m.phys, t, tj), 0))
  {
    var dir, t := m.processes[p].mmuBase, FrameAddress(env.start, LowestFree(m.taken));
    FrameAddressAligned(env.start, LowestFree(m.taken));
    UserWords(t);
    var hung := SetWord(m.phys, dir, di, UserDirectoryWord(t));
    var (m2, f) := TakePage(env, TakePage(env, m, p).value.0.(phys := hung), p).value;
    var full := SetWord(hung, t, ti, UserTableWord(f));
    assert MapAt(env, m, p, di, ti).value.phys == ClearSlot(env, full);
    WordAfterSet(full, env.KernelTable(), TEMP_INDEX, 0, dir, di);
    WordAfterSet(full, env.KernelTable(), TEMP_INDEX, 0, t, tj);
    WordAfterSet(m.phys, dir, di, UserDirectoryWord(t), dir, di);
    WordAfterSet(m.phys, dir, di, UserDirectoryWord(t), t, tj);
    WordAfterSet(hung, t, ti, UserTableWord(f), dir, di);
    WordAfterSet(hung, t, ti, UserTableWord(f), t, tj);
  }

  /** The source only asks that `va` lie below _kernel_start. Between 0xC0000000 and there the walk
    goes through the kernel page table that all directories share. */
  lemma MapAtKernelHalfHitsEveryone(env: Env, m: Machine, roles: Roles, p: nat, va: u32, q: nat)
    requires Consistent(env, m, roles) && p < |m.processes| && q < |m.processes|
    requires KERNEL_BASE <= va && !InTempPage(va) && MapUser(env, m, p, va).Some?
    ensures var m' := MapUser(env, m, p, va).value;
            && |m'.processes| == |m.processes|
            && Walk(m'.phys, m'.processes[q].mmuBase, va).Some?
            && !SameWalk(m, m', q, va)
  {
    KernelHalfInstall(env, m, roles, p, va);
    var di, ti := KERNEL_INDEX, TableIndex(va);
    var t, dirQ := env.KernelTable(), m.processes[q].mmuBase;
    assert ProcessOK(env, m.phys, roles, q, dirQ);
    TakeKeepsConsistent(env, m, roles, p);
    var (m1, f) := TakePage(env, m, p).value;
    UserWords(f);
    var w := UserTableWord(f);
    SlotStaysClear(env, m.phys, t, ti, w);
    WordAfterSet(m.phys, t, ti, w, dirQ, di);
    assert KernelEntryOK(env, m.phys, di, ti);
  }

  /** In the kernel half the page goes into the kernel page table. */
  lemma KernelHalfInstall(env: Env, m: Machine, roles: Roles, p: nat, va: u32)
    requires Consistent(env, m, roles) && p < |m.processes|
    requires KERNEL_BASE <= va && MapUser(env, m, p, va).Some?
    ensures DirIndex(va) == KERNEL_INDEX && TableIndex(va) < ENTRIES
    ensures VirtualAddressFromIndices(KERNEL_INDEX, TableIndex(va)) < env.kernelStart
    ensures MapUser(env, m, p, va) == InstallPage(env, m, p, env.KernelTable(), TableIndex(va))
  {
    IndicesSplitAddress(va);
    assert va < KERNEL_BASE + 1024 * 0x1000;
    assert ProcessOK(env, m.phys, roles, p, m.processes[p].mmuBase);
    assert Word(m.phys, m.processes[p].mmuBase, KERNEL_INDEX) == env.KernelWord(KERNEL_INDEX);
  }

  /** In the page of Temp the store hits the slot's own entry, and the destructor of the guard clears it:
    memory is as before, and the page taken is lost to the process. */
  lemma MapOfTempChangesNothing(env: Env, m: Machine, roles: Roles, p: nat, va: u32) returns (roles': Roles)
    requires Consistent(env, m, roles) && p < |m.processes|
    requires InTempPage(va) && MapUser(env, m, p, va).Some?
    ensures TakePage(env, m, p).Some? && MapUser(env, m, p, va) == Some(TakePage(env, m, p).value.0)
    ensures var m' := MapUser(env, m, p, va).value;
            m'.phys == m.phys && Consistent(env, m', roles') && OthersSame(m, m', p, va)
  {
    IndicesSplitAddress(va);
    KernelHalfInstall(env, m, roles, p, va);
    TakeKeepsConsistent(env, m, roles, p);
    var (m1, f) := TakePage(env, m, p).value;
    SlotWriteIsUndone(env, m.phys, UserTableWord(f));
    assert m1.(phys := m.phys) == m1;
    roles' := roles[f := Retired(p)];
  }

  /** The addresses that concern the process alone. */
  predicate PrivateAddress(va: u32) {
    va < KERNEL_BASE || InTempPage(va)
  }

  /** Mapping a page in one process leaves every translation of another process alone exactly when
    the address is below 0xC0000000 or in the page of Temp. */
  lemma MapUserLeavesOthersIff(env: Env, m: Machine, roles: Roles, p: nat, q: nat, va: u32)
    requires Consistent(env, m, roles) && p < |m.processes| && q < |m.processes| && p != q
    requires MapUser(env, m, p, va).Some?
    ensures var m' := MapUser(env, m, p, va).value;
            |m'.processes| == |m.processes| && ((forall va': u32 :: SameWalk(m, m', q, va')) <==> PrivateAddress(va))
  {
    if va < KERNEL_BASE {
      var roles' := MapUserChangesOneTranslation(env, m, roles, p, va);
    } else if InTempPage(va) {
      var roles' := MapOfTempChangesNothing(env, m, roles, p, va);
    } else {
      MapAtKernelHalfHitsEveryone(env, m, roles, p, va, q);
      assert !SameWalk(m, MapUser(env, m, p, va).value, q, va);
    }
  }

  /** `set_user_mem_no_write`: the page of `va` loses its write permission and keeps its frame; no
    other translation of any process changes. */
  lemma NoWriteChangesOnePermission(env: Env, m: Machine, roles: Roles, p: nat, va: u32)
    requires Consistent(env, m, roles) && p < |m.processes| && va < KERNEL_BASE
    requires NoWrite(env, m, p, va).Some?
    ensures var m' := NoWrite(env, m, p, va).value;
            && Consistent(env, m', roles)
            && OthersSame(m, m', p, va)
            && Walk(m.phys, m.processes[p].mmuBase, va).Some?
            && Walk(m'.phys, m.processes[p].mmuBase, va)
               == Some(Walk(m.phys, m.processes[p].mmuBase, va).value.(writable := false))
  {
    IndicesSplitAddress(va);
    var di, ti := DirIndex(va), TableIndex(va);
    NoWriteIsOneWrite(env, m, roles, p, va);
    NoWriteAt(env, m, roles, p, di, ti);
    OthersSameByIndices(m, NoWrite(env, m, p, va).value, p, va);
  }

  /** Away from the slot, the detour over it does not show. */
  lemma NoWriteIsOneWrite(env: Env, m: Machine, roles: Roles, p: nat, va: u32)
    requires Consistent(env, m, roles) && p < |m.processes| && !InTempPage(va)
    ensures var pde := Word(m.phys, m.processes[p].mmuBase, DirIndex(va));
            var pte := Word(m.phys, PageOf(pde), TableIndex(va));
            NoWrite(env, m, p, va)
            == if Bit(pde, 0) && Bit(pte, 0) then
                 Some(m.(phys := SetWord(m.phys, PageOf(pde), TableIndex(va), ReadOnlyWord(pte))))
               else None
  {
    IndicesSplitAddress(va);
    var pde := Word(m.phys, m.processes[p].mmuBase, DirIndex(va));
    WalkReads(env, m, roles, p, DirIndex(va), TableIndex(va));
    assert ProcessOK(env, m.phys, roles, p, m.processes[p].mmuBase);
    if Bit(pde, 0) {
      WordAfterSet(m.phys, env.KernelTable(), TEMP_INDEX, TempWord(PageOf(pde)), PageOf(pde), TableIndex(va));
      SlotStaysClear(env, m.phys, PageOf(pde), TableIndex(va), ReadOnlyWord(Word(m.phys, PageOf(pde), TableIndex(va))));
    }
  }

  /** In the page of Temp the function finds the slot's own entry, present, and changes nothing. */
  lemma NoWriteOfTempChangesNothing(env: Env, m: Machine, roles: Roles, p: nat, va: u32)
    requires Consistent(env, m, roles) && p < |m.processes| && InTempPage(va)
    ensures NoWrite(env, m, p, va) == Some(m)
  {
    assert ProcessOK(env, m.phys, roles, p, m.processes[p].mmuBase);
    assert Word(m.phys, m.processes[p].mmuBase, KERNEL_INDEX) == env.KernelWord(KERNEL_INDEX);
    var slot := env.KernelTable();
    WordAfterSet(m.phys, slot, TEMP_INDEX, TempWord(slot), slot, TEMP_INDEX);
    PageIsAligned(env.KernelWord(KERNEL_INDEX));
    TempWordFields(slot);
    SlotWriteIsUndone(env, m.phys, ReadOnlyWord(TempWord(slot)));
    assert m.(phys := m.phys) == m;
  }

  /** Elsewhere in the kernel half the page loses its write permission in every process. */
  lemma NoWriteInKernelHalf(env: Env, m: Machine, roles: Roles, p: nat, va: u32, q: nat, va': u32)
    requires Consistent(env, m, roles) && p < |m.processes| && q < |m.processes|
    requires KERNEL_BASE <= va && !InTempPage(va) && NoWrite(env, m, p, va).Some?
    ensures var m' := NoWrite(env, m, p, va).value;
            var was := Walk(m.phys, m.processes[q].mmuBase, va');
            && m'.processes == m.processes
            && Walk(m'.phys, m.processes[q].mmuBase, va')
               == (if PageOf(va') == PageOf(va) && was.Some? then Some(was.value.(writable := false)) else was)
            && (PageOf(va') == PageOf(va) ==> was.Some? && was == Walk(m.phys, m.processes[p].mmuBase, va))
  {
    IndicesSplitAddress(va);
    IndicesSplitAddress(va');
    SamePageIffSameIndices(va, va');
    NoWriteIsOneWrite(env, m, roles, p, va);
    var dirP, dirQ := m.processes[p].mmuBase, m.processes[q].mmuBase;
    assert ProcessOK(env, m.phys, roles, p, dirP) && ProcessOK(env, m.phys, roles, q, dirQ);
    var di, ti, dj, tj := DirIndex(va), TableIndex(va), DirIndex(va'), TableIndex(va');
    assert Word(m.phys, dirP, di) == env.KernelWord(di);
    assert di == KERNEL_INDEX;
    var t := env.KernelTable();
    var pte := Word(m.phys, t, ti);
    ReadOnlyWordFields(pte);
    WalkReads(env, m, roles, q, dj, tj);
    WordAfterSet(m.phys, t, ti, ReadOnlyWord(pte), dirQ, dj);
    WordAfterSet(m.phys, t, ti, ReadOnlyWord(pte), PageOf(Word(m.phys, dirQ, dj)), tj);
    assert Word(m.phys, dirQ, KERNEL_INDEX) == env.KernelWord(KERNEL_INDEX);
    if dj > KERNEL_INDEX {
      assert Word(m.phys, dirQ, dj) == env.KernelWord(dj);
    }
  }

  ghost predicate ReadOnlyAt(m: Machine, p: nat, va: u32)
    requires p < |m.processes|
  {
    var t := Walk(m.phys, m.processes[p].mmuBase, va);
    t.Some? && !t.value.writable
  }

  lemma NoWriteInKernelHalfIff(env: Env, m: Machine, roles: Roles, p: nat, va: u32, q: nat)
    requires Consistent(env, m, roles) && p < |m.processes| && q < |m.processes|
    requires KERNEL_BASE <= va && !InTempPage(va) && NoWrite(env, m, p, va).Some?
    ensures var m' := NoWrite(env, m, p, va).value;
            m'.processes == m.processes && ((forall va': u32 :: SameWalk(m, m', q, va')) <==> ReadOnlyAt(m, p, va))
  {
    var m' := NoWrite(env, m, p, va).value;
    NoWriteInKernelHalf(env, m, roles, p, va, q, va);
    assert SameWalk(m, m', q, va) <==> ReadOnlyAt(m, p, va);
    if ReadOnlyAt(m, p, va) {
      forall va': u32 ensures SameWalk(m, m', q, va') {
        NoWriteInKernelHalf(env, m, roles, p, va, q, va');
      }
    }
  }

  /** set_user_mem_no_write checks no bound. It leaves every translation of another process alone exactly
    when the address is private, or the kernel page was not writable anyway. */
  lemma NoWriteLeavesOthersIff(env: Env, m: Machine, roles: Roles, p: nat, q: nat, va: u32)
    requires Consistent(env, m, roles) && p < |m.processes| && q < |m.processes| && p != q
    requires NoWrite(env, m, p, va).Some?
    ensures var m' := NoWrite(env, m, p, va).value;
            && m'.processes == m.processes
            && ((forall va': u32 :: SameWalk(m, m', q, va')) <==> PrivateAddress(va) || ReadOnlyAt(m, p, va))
  {
    if va < KERNEL_BASE {
      NoWriteChangesOnePermission(env, m, roles, p, va);
    } else if InTempPage(va) {
      NoWriteOfTempChangesNothing(env, m, roles, p, va);
    } else {
      NoWriteInKernelHalfIff(env, m, roles, p, va, q);
    }
  }

  lemma NoWriteAt(env: Env, m: Machine, roles: Roles, p: nat, di: nat, ti: nat)
    requires Consistent(env, m, roles) && p < |m.processes| && di < KERNEL_INDEX && ti < ENTRIES
    requires Bit(Word(m.phys, m.processes[p].mmuBase, di), 0)
    requires Bit(Word(m.phys, PageOf(Word(m.phys, m.processes[p].mmuBase, di)), ti), 0)
    ensures var dir := m.processes[p].mmuBase;
            var t := PageOf(Word(m.phys, dir, di));
            var phys' := SetWord(m.phys, t, ti, ReadOnlyWord(Word(m.phys, t, ti)));
            && Consistent(env, m.(phys := phys'), roles)
            && (forall q, dj, tj {:trigger WalkAt(phys', m.processes[q].mmuBase, dj, tj)} ::
                  0 <= q < |m.processes| && 0 <= dj < ENTRIES && 0 <= tj < ENTRIES
                  && (q != p || dj != di || tj != ti) ==>
                    WalkAt(phys', m.processes[q].mmuBase, dj, tj) == WalkAt(m.phys, m.processes[q].mmuBase, dj, tj))
            && WalkAt(m.phys, dir, di, ti).Some?
            && WalkAt(phys', dir, di, ti) == Some(WalkAt(m.phys, dir, di, ti).value.(writable := false))
  {
    var dir := m.processes[p].mmuBase;
    assert ProcessOK(env, m.phys, roles, p, dir);
    assert TableOK(m.phys, roles, p, dir, di);
    var t := PageOf(Word(m.phys, dir, di));
    assert PageOK(m.phys, roles, p, di, t, ti);
    var pte := Word(m.phys, t, ti);
    var w := ReadOnlyWord(pte);
    ReadOnlyWordFields(pte);
    assert Bit(w, 0) == Bit(pte, 0) && Bit(w, 2) == Bit(pte, 2);
    RewriteTableEntryKeepsConsistent(env, m, roles, p, di, ti, w);
    var phys' := SetWord(m.phys, t, ti, w);
    forall q, dj, tj | 0 <= q < |m.processes| && 0 <= dj < ENTRIES && 0 <= tj < ENTRIES
                       && (q != p || dj != di || tj != ti)
      ensures WalkAt(phys', m.processes[q].mmuBase, dj, tj) == WalkAt(m.phys, m.processes[q].mmuBase, dj, tj)
    {
      WalksAfterTableEntry(env, m, roles, p, di, ti, w, q, dj, tj);
    }
    WalksAfterTableEntry(env, m, roles, p, di, ti, w, p, di, ti);
  }

  // ---------- Stores in user mode ----------

  /** A user translation leads to a data frame of its own process. */
  lemma UserFrame(env: Env, m: Machine, roles: Roles, q: nat, dj: nat, tj: nat)
    requires Consistent(env, m, roles) && q < |m.processes| && dj < ENTRIES && tj < ENTRIES
    requires WalkAt(m.phys, m.processes[q].mmuBase, dj, tj).Some?
    requires WalkAt(m.phys, m.processes[q].mmuBase, dj, tj).value.user
    ensures var f := WalkAt(m.phys, m.processes[q].mmuBase, dj, tj).value.frame;
            dj < KERNEL_INDEX && f in roles && roles[f] == Data(q, dj, tj)
  {
    var dir := m.processes[q].mmuBase;
    WalkReads(env, m, roles, q, dj, tj);
    assert ProcessOK(env, m.phys, roles, q, dir);
    assert TableOK(m.phys, roles, q, dir, dj);
    assert PageOK(m.phys, roles, q, dj, PageOf(Word(m.phys, dir, dj)), tj);
  }

  ghost predicate AllWalksSame(m: Machine, phys': Phys) {
    forall q, dj, tj {:trigger WalkAt(phys', m.processes[q].mmuBase, dj, tj)} ::
      0 <= q < |m.processes| && 0 <= dj < ENTRIES && 0 <= tj < ENTRIES ==>
        WalkAt(phys', m.processes[q].mmuBase, dj, tj) == WalkAt(m.phys, m.processes[q].mmuBase, dj, tj)
  }

  lemma MarkDirectoryEntry(env: Env, m: Machine, roles: Roles, p: nat, di: nat)
    requires Consistent(env, m, roles) && p < |m.processes| && di < KERNEL_INDEX
    requires Bit(Word(m.phys, m.processes[p].mmuBase, di), 0)
    ensures var dir := m.processes[p].mmuBase;
            var phys' := SetWord(m.phys, dir, di, Or(Word(m.phys, dir, di), 0x20));
            Consistent(env, m.(phys := phys'), roles) && AllWalksSame(m, phys')
  {
    var dir := m.processes[p].mmuBase;
    assert ProcessOK(env, m.phys, roles, p, dir);
    assert TableOK(m.phys, roles, p, dir, di);
    var pde := Word(m.phys, dir, di);
    var w := Or(pde, 0x20);
    MarksKeepTranslation(pde, 0x20);
    RewriteDirectoryEntryKeepsConsistent(env, m, roles, p, di, w);
    var phys' := SetWord(m.phys, dir, di, w);
    forall q, dj, tj | 0 <= q < |m.processes| && 0 <= dj < ENTRIES && 0 <= tj < ENTRIES
      ensures WalkAt(phys', m.processes[q].mmuBase, dj, tj) == WalkAt(m.phys, m.processes[q].mmuBase, dj, tj)
    {
      WalkReads(env, m, roles, q, dj, tj);
      WordAfterSet(m.phys, dir, di, w, m.processes[q].mmuBase, dj);
      WordAfterSet(m.phys, dir, di, w, PageOf(Word(m.phys, m.processes[q].mmuBase, dj)), tj);
    }
  }

  lemma MarkTableEntry(env: Env, m: Machine, roles: Roles, p: nat, di: nat, ti: nat, marks: nat)
    requires Consistent(env, m, roles) && p < |m.processes| && di < KERNEL_INDEX && ti < ENTRIES
    requires WalkAt(m.phys, m.processes[p].mmuBase, di, ti).Some? && (marks == 0x20 || marks == 0x60)
    ensures var t := PageOf(Word(m.phys, m.processes[p].mmuBase, di));
            var phys' := SetWord(m.phys, t, ti, Or(Word(m.phys, t, ti), marks));
            Consistent(env, m.(phys := phys'), roles) && AllWalksSame(m, phys')
  {
    var dir := m.processes[p].mmuBase;
    assert ProcessOK(env, m.phys, roles, p, dir);
    assert TableOK(m.phys, roles, p, dir, di);
    var t := PageOf(Word(m.phys, dir, di));
    assert PageOK(m.phys, roles, p, di, t, ti);
    var pte := Word(m.phys, t, ti);
    var w := Or(pte, marks);
    MarksKeepTranslation(pte, marks);
    RewriteTableEntryKeepsConsistent(env, m, roles, p, di, ti, w);
    var phys' := SetWord(m.phys, t, ti, w);
    forall q, dj, tj | 0 <= q < |m.processes| && 0 <= dj < ENTRIES && 0 <= tj < ENTRIES
      ensures WalkAt(phys', m.processes[q].mmuBase, dj, tj) == WalkAt(m.phys, m.processes[q].mmuBase, dj, tj)
    {
      WalksAfterTableEntry(env, m, roles, p, di, ti, w, q, dj, tj);
    }
  }

  lemma DataWriteKeepsWalks(env: Env, m: Machine, roles: Roles, page: nat, i: nat, w: nat)
    requires Consistent(env, m, roles)
    requires page in roles && roles[page].Data?
    ensures AllWalksSame(m, SetWord(m.phys, page, i, w))
  {
    var phys' := SetWord(m.phys, page, i, w);
    forall q, dj, tj | 0 <= q < |m.processes| && 0 <= dj < ENTRIES && 0 <= tj < ENTRIES
      ensures WalkAt(phys', m.processes[q].mmuBase, dj, tj) == WalkAt(m.phys, m.processes[q].mmuBase, dj, tj)
    {
      WalkReads(env, m, roles, q, dj, tj);
    }
  }

  /** The three writes of a store, entry marks included: no translation changes, and all frames but
    the stored-to one, the directory and the table keep their words. */
  lemma UserStoreAt(env: Env, m: Machine, roles: Roles, p: nat, va: u32, value: nat)
    requires Consistent(env, m, roles) && p < |m.processes|
    requires UserStore(m, p, va, value).Some?
    ensures var m' := UserStore(m, p, va, value).value;
            var dir := m.processes[p].mmuBase;
            var f := Walk(m.phys, dir, va).value.frame;
            var t := PageOf(Word(m.phys, dir, DirIndex(va)));
            && Consistent(env, m', roles)
            && m' == m.(phys := m'.phys)
            && AllWalksSame(m, m'.phys)
            && DirIndex(va) < KERNEL_INDEX && TableIndex(va) < ENTRIES
            && f in roles && roles[f] == Data(p, DirIndex(va), TableIndex(va))
            && t in roles && roles[t] == UserTable(p, DirIndex(va))
            && Word(m'.phys, f, va % PAGE_SIZE / 4) == value
            && (forall a, i {:trigger Word(m'.phys, a, i)} ::
                  a != dir && a != t && (a != f || i != va % PAGE_SIZE / 4) ==>
                  Word(m'.phys, a, i) == Word(m.phys, a, i))
  {
    IndicesSplitAddress(va);
    var dir := m.processes[p].mmuBase;
    var di, ti := DirIndex(va), TableIndex(va);
    UserFrame(env, m, roles, p, di, ti);
    WalkReads(env, m, roles, p, di, ti);
    var pde := Word(m.phys, dir, di);
    var t, f := PageOf(pde), Walk(m.phys, dir, va).value.frame;
    MarkDirectoryEntry(env, m, roles, p, di);
    var m1 := m.(phys := SetWord(m.phys, dir, di, Or(pde, 0x20)));
    assert ProcessOK(env, m.phys, roles, p, dir);
    WordAfterSet(m.phys, dir, di, Or(pde, 0x20), dir, di);
    MarksKeepTranslation(pde, 0x20);
    assert WalkAt(m1.phys, dir, di, ti) == WalkAt(m.phys, dir, di, ti);
    MarkTableEntry(env, m1, roles, p, di, ti, 0x60);
    var m2 := m1.(phys := SetWord(m1.phys, t, ti, Or(Word(m1.phys, t, ti), 0x60)));
    DataWriteKeepsConsistent(env, m2, roles, f, va % PAGE_SIZE / 4, value);
    DataWriteKeepsWalks(env, m2, roles, f, va % PAGE_SIZE / 4, value);
    StoreWords(m.phys, m1.phys, m2.phys, dir, di, t, ti, f, va % PAGE_SIZE / 4, value);
  }

  lemma StoreWords(phys: Phys, phys1: Phys, phys2: Phys, dir: nat, di: nat, t: nat, ti: nat, f: nat, i: nat, value: nat)
    requires exists w :: phys1 == SetWord(phys, dir, di, w)
    requires exists w :: phys2 == SetWord(phys1, t, ti, w)
    requires f in phys2 && i < |phys2[f]|
    ensures var phys3 := SetWord(phys2, f, i, value);
            && Word(phys3, f, i) == value
            && forall a, j {:trigger Word(phys3, a, j)} :: a != dir && a != t && (a != f || j != i) ==>
                 Word(phys3, a, j) == Word(phys, a, j)
  {
  }

  /** A load sees a store only at its own word. */
  lemma LoadAfterStore(env: Env, m: Machine, roles: Roles, p: nat, va: u32, value: nat,
                       q: nat, dj: nat, tj: nat, j: nat)
    requires Consistent(env, m, roles) && p < |m.processes| && q < |m.processes| && dj < ENTRIES && tj < ENTRIES
    requires UserStore(m, p, va, value).Some?
    ensures var m' := UserStore(m, p, va, value).value;
            var dir := m.processes[q].mmuBase;
            var t := WalkAt(m.phys, dir, dj, tj);
            && |m'.processes| == |m.processes| && m'.processes[q].mmuBase == dir
            && WalkAt(m'.phys, dir, dj, tj) == t
            && (t.Some? && t.value.user ==>
                  Word(m'.phys, t.value.frame, j)
                  == if q == p && dj == DirIndex(va) && tj == TableIndex(va) && j == va % PAGE_SIZE / 4 then value
                     else Word(m.phys, t.value.frame, j))
  {
    UserStoreAt(env, m, roles, p, va, value);
    var m' := UserStore(m, p, va, value).value;
    var t := WalkAt(m.phys, m.processes[q].mmuBase, dj, tj);
    assert WalkAt(m'.phys, m.processes[q].mmuBase, dj, tj) == t;
    if t.Some? && t.value.user {
      UserFrame(env, m, roles, q, dj, tj);
      WalkReads(env, m, roles, p, dj, tj);
    }
  }

  /** A store is read back by its process and seen by no other load: not at another word, and not in
    another process. */
  lemma StoreSeenOnlyByItself(env: Env, m: Machine, roles: Roles, p: nat, va: u32, value: nat, q: nat, va': u32)
    requires Consistent(env, m, roles) && p < |m.processes| && q < |m.processes|
    requires UserStore(m, p, va, value).Some?
    ensures var m' := UserStore(m, p, va, value).value;
            && |m'.processes| == |m.processes|
            && UserLoad(m', q, va') ==
               if q == p && PageOf(va') == PageOf(va) && va' % PAGE_SIZE / 4 == va % PAGE_SIZE / 4 then Some(value)
               else UserLoad(m, q, va')
  {
    IndicesSplitAddress(va');
    SamePageIffSameIndices(va, va');
    LoadAfterStore(env, m, roles, p, va, value, q, DirIndex(va'), TableIndex(va'), va' % PAGE_SIZE / 4);
  }

  // ---------- Runs ----------

  datatype MemoryOp =
    | Create
    | Map(p: nat, va: u32)
    | Protect(p: nat, va: u32)
    | Store(p: nat, va: u32, value: nat)

  /** None when the operation panics, faults or names no process. */
  function StepOp(env: Env, m: Machine, op: MemoryOp): Option<Machine> {
    match op
    case Create => CreateProcess(env, m)
    case Map(p, va) => if p < |m.processes| then MapUser(env, m, p, va) else None
    case Protect(p, va) => if p < |m.processes| then NoWrite(env, m, p, va) else None
    case Store(p, va, value) => if p < |m.processes| then UserStore(m, p, va, value) else None
  }

  /** The operation concerns one process. */
  predicate IsPrivate(op: MemoryOp) {
    (op.Map? ==> PrivateAddress(op.va)) && (op.Protect? ==> PrivateAddress(op.va))
  }

  function RunOps(env: Env, m: Machine, ops: seq<MemoryOp>): Option<Machine>
    decreases |ops|
  {
    if ops == [] then Some(m)
    else match StepOp(env, m, ops[0])
      case None => None
      case Some(m') => RunOps(env, m', ops[1..])
  }

  /** Only frames of process `p`, or frames without an owner, changed. */
  ghost predicate WritesOnly(env: Env, phys: Phys, phys': Phys, roles: Roles, p: int) {
    forall a, i {:trigger Word(phys', a, i)} ::
      !env.IsFrame(a) || (a in roles && roles[a].p != p) ==> Word(phys', a, i) == Word(phys, a, i)
  }

  /** Everything process `q` can translate or read is the same. */
  ghost predicate SameView(m: Machine, m': Machine, q: nat)
    requires q < |m.processes| && q < |m'.processes|
  {
    && m'.processes[q].mmuBase == m.processes[q].mmuBase
    && forall va: u32 :: SameWalk(m, m', q, va) && UserLoad(m', q, va) == UserLoad(m, q, va)
  }

  /** Writes to other owners' frames cannot be seen. */
  lemma ForeignWritesInvisible(env: Env, m: Machine, m': Machine, roles: Roles, p: int, q: nat)
    requires Consistent(env, m, roles) && q < |m.processes| && q < |m'.processes| && q != p
    requires m'.processes[q].mmuBase == m.processes[q].mmuBase
    requires WritesOnly(env, m.phys, m'.phys, roles, p)
    ensures SameView(m, m', q)
  {
    forall va: u32 ensures SameWalk(m, m', q, va) && UserLoad(m', q, va) == UserLoad(m, q, va) {
      IndicesSplitAddress(va);
      ForeignWritesInvisibleAt(env, m, m', roles, p, q, DirIndex(va), TableIndex(va));
    }
  }

  lemma ForeignWritesInvisibleAt(env: Env, m: Machine, m': Machine, roles: Roles, p: int, q: nat, dj: nat, tj: nat)
    requires Consistent(env, m, roles) && q < |m.processes| && q != p && dj < ENTRIES && tj < ENTRIES
    requires WritesOnly(env, m.phys, m'.phys, roles, p)
    ensures var dir := m.processes[q].mmuBase;
            var t := WalkAt(m.phys, dir, dj, tj);
            && WalkAt(m'.phys, dir, dj, tj) == t
            && (t.Some? && t.value.user ==>
                  forall i :: Word(m'.phys, t.value.frame, i) == Word(m.phys, t.value.frame, i))
  {
    var dir := m.processes[q].mmuBase;
    WalkReads(env, m, roles, q, dj, tj);
    assert Word(m'.phys, dir, dj) == Word(m.phys, dir, dj);
    var table := PageOf(Word(m.phys, dir, dj));
    if Bit(Word(m.phys, dir, dj), 0) {
      assert Word(m'.phys, table, tj) == Word(m.phys, table, tj);
      if WalkAt(m.phys, dir, dj, tj).Some? && WalkAt(m.phys, dir, dj, tj).value.user {
        UserFrame(env, m, roles, q, dj, tj);
      }
    }
  }

  /** Setting a word of an allocatable page that nobody but `p` owns. */
  lemma SetWordWritesOnly(env: Env, phys: Phys, phys': Phys, roles: Roles, p: int, page: nat, i: nat, w: nat)
    requires WritesOnly(env, phys, phys', roles, p)
    requires env.IsFrame(page) && (page in roles ==> roles[page].p == p)
    ensures WritesOnly(env, phys, SetWord(phys', page, i, w), roles, p)
  {
    forall a, j | !env.IsFrame(a) || (a in roles && roles[a].p != p)
      ensures Word(SetWord(phys', page, i, w), a, j) == Word(phys, a, j)
    {
      WordAfterSet(phys', page, i, w, a, j);
      assert Word(phys', a, j) == Word(phys, a, j);
    }
  }

  lemma MapWritesOwnFrames(env: Env, m: Machine, roles: Roles, p: nat, va: u32)
    requires Consistent(env, m, roles) && p < |m.processes| && PrivateAddress(va)
    requires MapUser(env, m, p, va).Some?
    ensures WritesOnly(env, m.phys, MapUser(env, m, p, va).value.phys, roles, p)
  {
    IndicesSplitAddress(va);
    if va < KERNEL_BASE {
      MapAtWritesOwnFrames(env, m, roles, p, DirIndex(va), TableIndex(va));
    } else {
      var _ := MapOfTempChangesNothing(env, m, roles, p, va);
    }
  }

  lemma MapAtWritesOwnFrames(env: Env, m: Machine, roles: Roles, p: nat, di: nat, ti: nat)
    requires Consistent(env, m, roles) && p < |m.processes| && di < KERNEL_INDEX && ti < ENTRIES
    requires MapAt(env, m, p, di, ti).Some?
    ensures WritesOnly(env, m.phys, MapAt(env, m, p, di, ti).value.phys, roles, p)
  {
    WalkReads(env, m, roles, p, di, ti);
    TakeKeepsConsistent(env, m, roles, p);
    var dir := m.processes[p].mmuBase;
    var pde := Word(m.phys, dir, di);
    var (m1, a) := TakePage(env, m, p).value;
    if Bit(pde, 0) {
      SetWordWritesOnly(env, m.phys, m.phys, roles, p, PageOf(pde), ti, UserTableWord(a));
      SlotStaysClear(env, m.phys, PageOf(pde), ti, UserTableWord(a));
    } else {
      var w := UserDirectoryWord(a);
      SetWordWritesOnly(env, m.phys, m.phys, roles, p, dir, di, w);
      var phys' := SetWord(m.phys, dir, di, w);
      WordAfterSet(m.phys, dir, di, w, env.KernelTable(), TEMP_INDEX);
      var (m2, f) := TakePage(env, m1.(phys := phys'), p).value;
      SetWordWritesOnly(env, m.phys, phys', roles, p, a, ti, UserTableWord(f));
      SlotStaysClear(env, phys', a, ti, UserTableWord(f));
    }
  }

  lemma CreateEffect(env: Env, m: Machine, roles: Roles) returns (roles': Roles)
    requires Consistent(env, m, roles) && CreateProcess(env, m).Some?
    ensures var m' := CreateProcess(env, m).value;
            && Consistent(env, m', roles')
            && WritesOnly(env, m.phys, m'.phys, roles, |m.processes|)
            && |m'.processes| == |m.processes| + 1 && m.processes == m'.processes[..|m.processes|]
            && forall va: u32 :: UserLoad(m', |m.processes|, va) == None
  {
    FreshFrame(env, m, roles);
    var a := FrameAddress(env.start, LowestFree(m.taken));
    var n := |m.processes|;
    var m' := CreateProcess(env, m).value;
    roles' := roles[a := Directory(n)];
    forall q | 0 <= q < |m'.processes| ensures ProcessOK(env, m'.phys, roles', q, m'.processes[q].mmuBase) {
      if q < n {
        assert ProcessOK(env, m.phys, roles, q, m.processes[q].mmuBase);
        ProcessKeptByNewRole(env, m.phys, roles, q, m.processes[q].mmuBase, a, Directory(n));
        ProcessKeptByForeignPage(env, m.phys, m'.phys, roles', q, m.processes[q].mmuBase, a);
      } else {
        forall di | 0 <= di < KERNEL_INDEX ensures TableOK(m'.phys, roles', n, a, di) {
          assert Word(m'.phys, a, di) == env.KernelWord(di);
        }
      }
    }
    forall di, ti | KERNEL_INDEX <= di < ENTRIES && 0 <= ti < ENTRIES ensures KernelEntryOK(env, m'.phys, di, ti) {
      assert KernelEntryOK(env, m.phys, di, ti);
    }
    forall va: u32 ensures UserLoad(m', n, va) == None {
      IndicesSplitAddress(va);
      assert Word(m'.phys, a, DirIndex(va)) == env.KernelWord(DirIndex(va));
    }
  }

  lemma ProcessKeptByForeignPage(env: Env, phys: Phys, phys': Phys, roles: Roles, q: nat, dir: nat, page: nat)
    requires ProcessOK(env, phys, roles, q, dir)
    requires forall a, i {:trigger Word(phys', a, i)} :: a != page ==> Word(phys', a, i) == Word(phys, a, i)
    requires page in roles ==> roles[page] != Directory(q) && forall di :: roles[page] != UserTable(q, di)
    ensures ProcessOK(env, phys', roles, q, dir)
  {
    forall di | 0 <= di < KERNEL_INDEX ensures TableOK(phys', roles, q, dir, di) {
      assert TableOK(phys, roles, q, dir, di);
      var pde := Word(phys, dir, di);
      if Bit(pde, 0) {
        forall ti | 0 <= ti < ENTRIES ensures PageOK(phys', roles, q, di, PageOf(pde), ti) {
          assert PageOK(phys, roles, q, di, PageOf(pde), ti);
        }
      }
    }
  }

  /** The process an operation is about; a creation is about the new one. */
  function Actor(m: Machine, op: MemoryOp): nat {
    if op.Create? then |m.processes| else op.p
  }

  lemma ProtectWritesOwnFrames(env: Env, m: Machine, roles: Roles, p: nat, va: u32)
    requires Consistent(env, m, roles) && p < |m.processes| && PrivateAddress(va)
    requires NoWrite(env, m, p, va).Some?
    ensures WritesOnly(env, m.phys, NoWrite(env, m, p, va).value.phys, roles, p)
  {
    IndicesSplitAddress(va);
    if InTempPage(va) {
      NoWriteOfTempChangesNothing(env, m, roles, p, va);
    } else {
      NoWriteIsOneWrite(env, m, roles, p, va);
      WalkReads(env, m, roles, p, DirIndex(va), TableIndex(va));
    }
  }

  lemma StoreWritesOwnFrames(env: Env, m: Machine, roles: Roles, p: nat, va: u32, value: nat)
    requires Consistent(env, m, roles) && p < |m.processes|
    requires UserStore(m, p, va, value).Some?
    ensures WritesOnly(env, m.phys, UserStore(m, p, va, value).value.phys, roles, p)
  {
    UserStoreAt(env, m, roles, p, va, value);
    assert ProcessOK(env, m.phys, roles, p, m.processes[p].mmuBase);
  }

  lemma StepKeepsConsistent(env: Env, m: Machine, roles: Roles, op: MemoryOp) returns (roles': Roles)
    requires Consistent(env, m, roles) && IsPrivate(op) && StepOp(env, m, op).Some?
    ensures Consistent(env, StepOp(env, m, op).value, roles')
    ensures |m.processes| <= |StepOp(env, m, op).value.processes|
  {
    match op {
      case Create => roles' := CreateEffect(env, m, roles);
      case Map(p, va) =>
        if va < KERNEL_BASE {
          roles' := MapUserChangesOneTranslation(env, m, roles, p, va);
        } else {
          roles' := MapOfTempChangesNothing(env, m, roles, p, va);
        }
      case Protect(p, va) =>
        roles' := roles;
        if va < KERNEL_BASE {
          NoWriteChangesOnePermission(env, m, roles, p, va);
        } else {
          NoWriteOfTempChangesNothing(env, m, roles, p, va);
        }
      case Store(p, va, value) =>
        roles' := roles;
        UserStoreAt(env, m, roles, p, va, value);
    }
  }

  lemma StepWritesOwnFrames(env: Env, m: Machine, roles: Roles, op: MemoryOp)
    requires Consistent(env, m, roles) && IsPrivate(op) && StepOp(env, m, op).Some?
    ensures WritesOnly(env, m.phys, StepOp(env, m, op).value.phys, roles, Actor(m, op))
  {
    match op
    case Create => var _ := CreateEffect(env, m, roles);
    case Map(p, va) => MapWritesOwnFrames(env, m, roles, p, va);
    case Protect(p, va) => ProtectWritesOwnFrames(env, m, roles, p, va);
    case Store(p, va, value) => StoreWritesOwnFrames(env, m, roles, p, va, value);
  }

  lemma StepKeepsDirectories(env: Env, m: Machine, op: MemoryOp, q: nat)
    requires q < |m.processes| && StepOp(env, m, op).Some?
    ensures var m' := StepOp(env, m, op).value;
            q < |m'.processes| && m'.processes[q].mmuBase == m.processes[q].mmuBase
  {
  }

  /** One operation is invisible to every process but its own. */
  lemma StepInvisibleToOthers(env: Env, m: Machine, roles: Roles, op: MemoryOp, q: nat)
    requires Consistent(env, m, roles) && IsPrivate(op) && StepOp(env, m, op).Some?
    requires q < |m.processes| && q != Actor(m, op)
    ensures q < |StepOp(env, m, op).value.processes| && SameView(m, StepOp(env, m, op).value, q)
  {
    StepKeepsDirectories(env, m, op, q);
    StepWritesOwnFrames(env, m, roles, op);
    ForeignWritesInvisible(env, m, StepOp(env, m, op).value, roles, Actor(m, op), q);
  }

  lemma SameViewTransitive(m: Machine, m': Machine, m'': Machine, q: nat)
    requires q < |m.processes| && q < |m'.processes| && q < |m''.processes|
    requires SameView(m, m', q) && SameView(m', m'', q)
    ensures SameView(m, m'', q)
  {
    forall va: u32 ensures SameWalk(m, m'', q, va) && UserLoad(m'', q, va) == UserLoad(m, q, va) {
      assert SameWalk(m, m', q, va) && SameWalk(m', m'', q, va);
    }
  }

  predicate LeavesAlone(op: MemoryOp, q: nat) {
    IsPrivate(op) && (op.Create? || op.p != q)
  }

  /** In every run of process creation, mapping, protection and user stores, a process that takes no
    step itself keeps every translation and every word it can read. */
  lemma {:induction false} RunInvisibleToBystander(env: Env, m: Machine, roles: Roles, ops: seq<MemoryOp>, q: nat)
    requires Consistent(env, m, roles) && q < |m.processes|
    requires forall k :: 0 <= k < |ops| ==> LeavesAlone(ops[k], q)
    requires RunOps(env, m, ops).Some?
    ensures q < |RunOps(env, m, ops).value.processes| && SameView(m, RunOps(env, m, ops).value, q)
    decreases |ops|
  {
    if ops == [] {
      SameViewReflexive(m, q);
    } else {
      assert LeavesAlone(ops[0], q);
      var m' := StepOp(env, m, ops[0]).value;
      var roles' := StepKeepsConsistent(env, m, roles, ops[0]);
      StepInvisibleToOthers(env, m, roles, ops[0], q);
      RunInvisibleToBystander(env, m', roles', ops[1..], q);
      SameViewTransitive(m, m', RunOps(env, m, ops).value, q);
    }
  }

  lemma SameViewReflexive(m: Machine, q: nat)
    requires q < |m.processes|
    ensures SameView(m, m, q)
  {
  }
}
