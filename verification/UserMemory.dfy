/** `map_user_memory` and `set_user_mem_no_write` of kernel/x86/memory.cpp as the code runs them: page
  tables are reached only through the Temp slot that PageMapGuard maps under a spin lock. Each
  method is proved to have the effect that AddressSpace gives as a function. */
module UserMemory {
  import opened Wrappers
  import opened Bits
  import opened Paging
  import opened PhysicalMalloc
  import opened AddressSpace
  import opened Isolation
  import opened IsolationRuns
  import opened EveryRun
  import opened MemoryOutcomes

  /** While the slot holds an entry, the Temp address translates to that entry's page in every
    directory with the kernel's half. */
  lemma TempTranslates(env: Env, phys: Phys, dir: nat, address: u32)
    requires env.Valid() && Word(phys, dir, KERNEL_INDEX) == env.KernelWord(KERNEL_INDEX)
    requires address % PAGE_SIZE == 0
    requires Word(phys, env.KernelTable(), TEMP_INDEX) == TempWord(address)
    ensures Walk(phys, dir, TEMP) == Some(Translation(address, true, false))
  {
    TempIndices();
    TempWordFields(address);
  }

  /** `page` with its first `i` words taken from `words`. */
  ghost function CopiedTo(phys: Phys, page: nat, words: seq<nat>, i: nat): Phys
    requires page in phys && i <= |phys[page]| == |words|
  {
    phys[page := words[..i] + phys[page][i..]]
  }

  lemma CopyEnds(phys: Phys, page: nat, words: seq<nat>)
    requires page in phys && |phys[page]| == |words|
    ensures CopiedTo(phys, page, words, 0) == phys
    ensures CopiedTo(phys, page, words, |words|) == phys[page := words]
  {
    assert words[..0] + phys[page][0..] == phys[page];
    assert words[..|words|] + phys[page][|words|..] == words;
  }

  lemma CopyOne(phys: Phys, page: nat, words: seq<nat>, i: nat)
    requires page in phys && i < |phys[page]| == |words|
    ensures CopiedTo(phys, page, words, i + 1) == SetWord(CopiedTo(phys, page, words, i), page, i, words[i])
  {
    var before := words[..i] + phys[page][i..];
    assert before[i := words[i]] == words[..i + 1] + phys[page][i + 1..];
  }

  class Kernel {
    const env: Env
    const allocator: PhysicalAllocator
    var phys: Phys
    var processes: seq<Process>
    /** The active page directory. */
    var cr3: nat
    /** The interrupt flag, and m_locked of the lock that guards the slot. */
    var interrupts: bool
    var locked: bool

    /** The state after init_memory_management: no process, the slot clear, the lock free. */
    constructor (env: Env, allocator: PhysicalAllocator, phys: Phys, cr3: nat)
      requires env.Valid() && allocator.Valid() && allocator.start == env.start
      requires env.KernelTable() in phys && |phys[env.KernelTable()]| == ENTRIES && cr3 != env.KernelTable()
      requires Word(phys, env.KernelTable(), TEMP_INDEX) == 0
      requires Word(phys, cr3, KERNEL_INDEX) == env.KernelWord(KERNEL_INDEX)
      ensures Valid() && Unmapped()
      ensures this.env == env && this.allocator == allocator && this.phys == phys && processes == [] && this.cr3 == cr3
      ensures Booted(env, View()) && !env.IsFrame(cr3) ==> Safe()
    {
      this.env, this.allocator, this.phys, this.cr3 := env, allocator, phys, cr3;
      processes, interrupts, locked := [], false, false;
      new;
      if Booted(env, View()) {
        BootedIsConsistent(env, View());
      }
    }

    ghost predicate Valid()
      reads this, allocator, allocator.allocations, allocator.allocations.data
    {
      && env.Valid() && allocator.Valid() && allocator.start == env.start
      && env.KernelTable() in phys && |phys[env.KernelTable()]| == ENTRIES
      && Word(phys, cr3, KERNEL_INDEX) == env.KernelWord(KERNEL_INDEX)
      && cr3 != env.KernelTable()
    }

    /** The slot holds the mapping of `page` and this task holds the lock. */
    ghost predicate Mapped(page: nat)
      reads this
    {
      locked && page % PAGE_SIZE == 0 && page < U32 && Word(phys, env.KernelTable(), TEMP_INDEX) == TempWord(page)
    }

    ghost predicate Unmapped()
      reads this
    {
      !locked && Word(phys, env.KernelTable(), TEMP_INDEX) == 0
    }

    ghost function View(): Machine
      requires Valid()
      reads this, allocator, allocator.allocations, allocator.allocations.data
    {
      Machine(phys, allocator.Outstanding(), processes)
    }

    /** The active directory is the kernel's own or that of a process. */
    ghost predicate DirectoryActive()
      reads this
    {
      env.IsFrame(cr3) ==> exists k :: 0 <= k < |processes| && processes[k].mmuBase == cr3
    }

    /** The states between two calls. */
    ghost predicate Safe()
      reads this, allocator, allocator.allocations, allocator.allocations.data
    {
      Valid() && Unmapped() && DirectoryActive() && exists roles :: Consistent(env, View(), roles)
    }

    /** The pages the two functions write are not the active directory, and the directory they read is a
      frame. */
    lemma TargetsApart(roles: Roles, p: nat, di: nat)
      requires Valid() && Consistent(env, View(), roles) && DirectoryActive()
      requires p < |processes| && di < ENTRIES
      ensures var dir := processes[p].mmuBase;
              var pde := Word(phys, dir, di);
              && env.IsFrame(dir) && dir % PAGE_SIZE == 0 && dir < U32 && dir != env.KernelTable()
              && (Bit(pde, 0) ==> PageOf(pde) != cr3)
              && (di == KERNEL_INDEX ==> Bit(pde, 0))
    {
      WalkReads(env, View(), roles, p, di, 0);
      assert ProcessOK(env, phys, roles, p, processes[p].mmuBase);
      if di >= KERNEL_INDEX {
        assert Word(phys, processes[p].mmuBase, di) == env.KernelWord(di);
      }
      if env.IsFrame(cr3) {
        var k :| 0 <= k < |processes| && processes[k].mmuBase == cr3;
        assert ProcessOK(env, phys, roles, k, cr3);
      }
    }

    // ---------- InterruptGuard, SpinLock and PageMapGuard ----------

    /** The constructor of InterruptGuard; its result is m_did_disable_interrupts. */
    method EnterInterruptGuard() returns (didDisable: bool)
      modifies this`interrupts
      ensures !interrupts && didDisable == old(interrupts)
    {
      didDisable := false;
      if interrupts {
        interrupts := false;
        didDisable := true;
      }
    }

    method LeaveInterruptGuard(didDisable: bool)
      modifies this`interrupts
      ensures interrupts == (didDisable || old(interrupts))
    {
      if didDisable {
        interrupts := true;
      }
    }

    /** One round of the spin loop; it succeeds when the lock is free. */
    method TryLock() returns (taken: bool)
      modifies this`interrupts, this`locked
      ensures interrupts == old(interrupts) && locked
      ensures taken == !old(locked)
    {
      var guard := EnterInterruptGuard();
      taken := !locked;
      if taken {
        locked := true;
      }
      LeaveInterruptGuard(guard);
    }

    /** SpinLock::unlock, with its assertion that the lock is held as precondition. */
    method Unlock()
      requires locked
      modifies this`interrupts, this`locked
      ensures interrupts == old(interrupts) && !locked
    {
      var guard := EnterInterruptGuard();
      locked := false;
      LeaveInterruptGuard(guard);
    }

    /** The constructor of PageMapGuard, for a task that finds the lock free. */
    method MapTemp(address: u32)
      requires Valid() && Unmapped() && address % PAGE_SIZE == 0
      modifies this`interrupts, this`locked, this`phys
      ensures Valid() && Mapped(address) && interrupts == old(interrupts)
      ensures phys == FillSlot(env, old(phys), address)
    {
      var taken := TryLock();
      assert taken;
      var entry := NO_TABLE_ENTRY.(pageAddress := address, present := true, readWrite := true);
      var word := TableEntryAsU32(entry);
      phys := SetWord(phys, env.KernelTable(), TEMP_INDEX, word);
    }

    /** The destructor: the slot is cleared, whatever it holds, before the lock is given up. */
    method UnmapTemp()
      requires Valid() && locked
      modifies this`interrupts, this`locked, this`phys
      ensures Valid() && Unmapped() && interrupts == old(interrupts)
      ensures phys == ClearSlot(env, old(phys))
    {
      EmptyEntryIsZero();
      var word := TableEntryAsU32(NO_TABLE_ENTRY);
      phys := SetWord(phys, env.KernelTable(), TEMP_INDEX, word);
      Unlock();
    }

    /** A load through the Temp address, translated by the processor. */
    method LoadTemp(i: nat, ghost address: nat) returns (w: nat)
      requires Valid() && Mapped(address) && i < ENTRIES
      ensures w == Word(phys, address, i)
    {
      TempTranslates(env, phys, cr3, address);
      var t := Walk(phys, cr3, TEMP);
      w := Word(phys, t.value.frame, i);
    }

    /** A store through the Temp address. It may hit the slot's own entry. */
    method StoreTemp(i: nat, w: nat, ghost address: nat)
      requires Valid() && Mapped(address) && i < ENTRIES
      modifies this`phys
      ensures phys == SetWord(old(phys), address, i, w)
      ensures address != cr3 || i != KERNEL_INDEX ==> Valid()
      ensures address != env.KernelTable() || i != TEMP_INDEX ==> Mapped(address)
    {
      TempTranslates(env, phys, cr3, address);
      var t := Walk(phys, cr3, TEMP);
      phys := SetWord(phys, t.value.frame, i, w);
    }

    static function Owning(processes: seq<Process>, p: nat, page: nat): seq<Process>
      requires p < |processes|
    {
      processes[p := processes[p].(ownedPages := processes[p].ownedPages + [page])]
    }

    /** allocate_physical_page and take_memory_page. */
    method TakePageFor(p: nat) returns (page: Option<nat>)
      requires Valid() && p < |processes|
      modifies this`processes, allocator.allocations.data
      ensures Valid() && phys == old(phys) && locked == old(locked)
      ensures var f := LowestFree(old(allocator.Outstanding()));
              if f == FRAME_COUNT then page == None
              else
                && page == Some(FrameAddress(env.start, f)) && FrameAddress(env.start, f) % PAGE_SIZE == 0
                && allocator.Outstanding() == old(allocator.Outstanding()) + {f}
                && processes == Owning(old(processes), p, FrameAddress(env.start, f))
    {
      page := allocator.AllocatePage();
      if page.Some? {
        FrameAddressAligned(env.start, LowestFree(old(allocator.Outstanding())));
        processes := Owning(processes, p, page.value);
      }
    }

    // ---------- map_user_memory ----------

    /** The first block: the page table behind directory entry `pdEntry`, made if it is missing. */
    method FindPageTable(p: nat, pdEntry: nat) returns (pageTable: Option<u32>)
      requires Valid() && Unmapped() && p < |processes| && pdEntry < ENTRIES
      requires var dir := processes[p].mmuBase;
               && dir % PAGE_SIZE == 0 && dir < U32 && dir != env.KernelTable()
               && (pdEntry == KERNEL_INDEX ==> Bit(Word(phys, dir, pdEntry), 0))
      modifies this, allocator.allocations.data
      ensures Valid() && cr3 == old(cr3)
      ensures var m := old(View());
              var dir := m.processes[p].mmuBase;
              if Bit(Word(m.phys, dir, pdEntry), 0) then
                Unmapped() && pageTable == Some(PageOf(Word(m.phys, dir, pdEntry))) && View() == m
              else match TakePage(env, m, p)
                case None => pageTable == None
                case Some((m', t)) =>
                  && Unmapped() && pageTable == Some(t)
                  && View() == m'.(phys := SetWord(m.phys, dir, pdEntry, UserDirectoryWord(t)))
      ensures pageTable.Some? ==> pageTable.value % PAGE_SIZE == 0
    {
      var pageDir := processes[p].mmuBase;
      ghost var before := phys;
      MapTemp(pageDir);
      var word := LoadTemp(pdEntry, pageDir);
      WordAfterSet(before, env.KernelTable(), TEMP_INDEX, TempWord(pageDir), pageDir, pdEntry);
      var entry := DirectoryEntryFromU32(word);
      PageIsAligned(word);
      pageTable := Some(entry.pageTableAddress);
      if !entry.present {
        pageTable, word := MakePageTable(p, pdEntry, pageDir);
        if pageTable == None {
          return;
        }
      }
      SlotDetour(before, pageDir, pdEntry, word);
      UnmapTemp();
    }

    /** A guarded block that writes one word elsewhere, or none, and starts with a clear slot. */
    lemma SlotDetour(before: Phys, page: nat, i: nat, w: nat)
      requires Word(before, env.KernelTable(), TEMP_INDEX) == 0 && page != env.KernelTable()
      ensures ClearSlot(env, SetWord(FillSlot(env, before, page), page, i, w)) == SetWord(before, page, i, w)
      ensures ClearSlot(env, FillSlot(env, before, page)) == before
    {
      SlotLeavesNoTrace(env, before, page, page, i, w);
      SlotStaysClear(env, before, page, i, w);
      SlotStaysClear(env, before, page, i, Word(before, page, i));
      SetBack(before, page, i);
    }

    /** The branch for a missing table, while the directory is mapped. */
    method MakePageTable(p: nat, pdEntry: nat, ghost pageDir: nat) returns (pageTable: Option<u32>, word: nat)
      requires Valid() && Mapped(pageDir) && p < |processes| && pdEntry < ENTRIES && pdEntry != KERNEL_INDEX
      requires pageDir != env.KernelTable()
      modifies this, allocator.allocations.data
      ensures Valid() && cr3 == old(cr3)
      ensures match TakePage(env, old(View()), p)
              case None => pageTable == None
              case Some((m, t)) =>
                && Mapped(pageDir) && pageTable == Some(t) && t % PAGE_SIZE == 0 && word == UserDirectoryWord(t)
                && View() == m.(phys := SetWord(old(phys), pageDir, pdEntry, word))
    {
      word := 0;
      pageTable := None;
      var newTable := TakePageFor(p);
      if newTable.Some? {
        word := EncodeUserTable(newTable.value);
        StoreTemp(pdEntry, word, pageDir);
        pageTable := Some(newTable.value);
      }
    }

    method EncodeUserTable(address: u32) returns (w: nat)
      requires address % PAGE_SIZE == 0
      ensures w == UserDirectoryWord(address)
    {
      var entry := NO_DIRECTORY_ENTRY;
      entry := entry.(pageTableAddress := address);
      entry := entry.(user := true, readWrite := true, present := true);
      w := DirectoryEntryAsU32(entry);
    }

    method EncodeUserPage(address: u32) returns (w: nat)
      requires address % PAGE_SIZE == 0
      ensures w == UserTableWord(address)
    {
      var entry := NO_TABLE_ENTRY.(pageAddress := address);
      entry := entry.(readWrite := true, user := true, present := true);
      w := TableEntryAsU32(entry);
    }

    /** The second block: a fresh page behind table entry `ptEntry`. Any table will do, the kernel's and the
      slot's own entry included. */
    method InstallFreshPage(p: nat, pageTable: u32, ptEntry: nat) returns (ok: bool)
      requires Valid() && Unmapped() && p < |processes| && ptEntry < ENTRIES
      requires pageTable % PAGE_SIZE == 0
      requires pageTable == cr3 ==> ptEntry != KERNEL_INDEX
      modifies this, allocator.allocations.data
      ensures Valid() && cr3 == old(cr3)
      ensures match InstallPage(env, old(View()), p, pageTable, ptEntry)
              case None => !ok
              case Some(m) => ok && View() == m && Unmapped()
    {
      ghost var before := phys;
      MapTemp(pageTable);
      var physicalPage := TakePageFor(p);
      if physicalPage == None {
        return false;
      }
      var word := EncodeUserPage(physicalPage.value);
      WriteAndUnmap(ptEntry, word, pageTable, before);
      ok := true;
    }

    /** The end of a block that writes: the store, and the destructor that follows it. */
    method WriteAndUnmap(i: nat, w: nat, ghost page: nat, ghost before: Phys)
      requires Valid() && Mapped(page) && i < ENTRIES && phys == FillSlot(env, before, page)
      requires page == cr3 ==> i != KERNEL_INDEX
      modifies this`phys, this`locked, this`interrupts
      ensures Valid() && Unmapped() && interrupts == old(interrupts)
      ensures phys == ClearSlot(env, SetWord(before, page, i, w))
    {
      StoreTemp(i, w, page);
      SlotLeavesNoTrace(env, before, page, page, i, w);
      UnmapTemp();
    }

    /** map_user_memory for every address; `ok` is false where the source panics, which is exactly from
      _kernel_start on and without frames enough. The effect is exactly that of MapUser. For a private address
      the state is safe again, and below 0xC0000000 exactly the one translation has changed. */
    method MapUserMemory(p: nat, at: u32) returns (ok: bool)
      requires Safe() && p < |processes|
      modifies this, allocator.allocations.data
      ensures Valid() && cr3 == old(cr3)
      ensures match MapUser(env, old(View()), p, at)
              case None => !ok
              case Some(m) => ok && View() == m && Unmapped()
      ensures ok <==> && at < env.kernelStart
                      && |FreeFrames(old(allocator.Outstanding()))|
                         >= FramesNeeded(old(phys), old(processes[p].mmuBase), at)
      ensures ok && PrivateAddress(at) ==> Safe() && OthersSame(old(View()), View(), p, at)
    {
      IndicesSplitAddress(at);
      ghost var before := View();
      ghost var roles :| Consistent(env, before, roles);
      MapUserSucceedsIff(env, before, p, at);
      if at >= env.kernelStart {
        return false;
      }
      ok := MapByIndices(p, DirIndex(at), TableIndex(at), roles);
      if ok && PrivateAddress(at) {
        MapKeepsSafe(before, roles, p, at);
      }
    }

    /** The two blocks. */
    method MapByIndices(p: nat, pdEntry: nat, ptEntry: nat, ghost roles: Roles) returns (ok: bool)
      requires Safe() && p < |processes| && pdEntry < ENTRIES && ptEntry < ENTRIES && Consistent(env, View(), roles)
      modifies this, allocator.allocations.data
      ensures Valid() && cr3 == old(cr3)
      ensures match MapAt(env, old(View()), p, pdEntry, ptEntry)
              case None => !ok
              case Some(m) => ok && View() == m && Unmapped()
    {
      TargetsApart(roles, p, pdEntry);
      FreshIsNotActive(roles, p);
      var pageTable := FindPageTable(p, pdEntry);
      if pageTable == None {
        return false;
      }
      ok := InstallFreshPage(p, pageTable.value, ptEntry);
    }

    lemma MapKeepsSafe(before: Machine, roles: Roles, p: nat, at: u32)
      requires Valid() && Unmapped() && p < |before.processes| && PrivateAddress(at)
      requires Consistent(env, before, roles) && MapUser(env, before, p, at) == Some(View())
      requires env.IsFrame(cr3) ==> exists k :: 0 <= k < |before.processes| && before.processes[k].mmuBase == cr3
      ensures Safe() && OthersSame(before, View(), p, at)
    {
      var roles' := roles;
      if at < KERNEL_BASE {
        roles' := MapUserChangesOneTranslation(env, before, roles, p, at);
      } else {
        roles' := MapOfTempChangesNothing(env, before, roles, p, at);
      }
      assert Consistent(env, View(), roles');
      StepKeepsActive(before, Map(p, at));
    }

    /** No operation takes a directory away. */
    lemma StepKeepsActive(before: Machine, op: MemoryOp)
      requires Valid() && StepOp(env, before, op) == Some(View())
      requires env.IsFrame(cr3) ==> exists k :: 0 <= k < |before.processes| && before.processes[k].mmuBase == cr3
      ensures DirectoryActive()
    {
      if env.IsFrame(cr3) {
        var k :| 0 <= k < |before.processes| && before.processes[k].mmuBase == cr3;
        StepKeepsDirectories(env, before, op, k);
      }
    }

    lemma FreshIsNotActive(roles: Roles, p: nat)
      requires Valid() && Consistent(env, View(), roles) && DirectoryActive() && p < |processes|
      ensures TakePage(env, View(), p).Some? ==>
                var t := TakePage(env, View(), p).value.1;
                t != cr3 && t != env.KernelTable()
    {
      if TakePage(env, View(), p).Some? {
        TakeKeepsConsistent(env, View(), roles, p);
        if env.IsFrame(cr3) {
          var k :| 0 <= k < |processes| && processes[k].mmuBase == cr3;
          assert ProcessOK(env, phys, roles, k, cr3);
        }
      }
    }

    // ---------- set_user_mem_no_write ----------

    /** set_user_mem_no_write for every address. The effect is exactly that of NoWrite; for a private
      address the state is safe again. */
    method SetUserMemNoWrite(p: nat, at: u32) returns (ok: bool)
      requires Safe() && p < |processes|
      modifies this
      ensures Valid() && cr3 == old(cr3)
      ensures match NoWrite(env, old(View()), p, at)
              case None => !ok
              case Some(m) => ok && View() == m && Unmapped()
      ensures ok <==> InTempPage(at) || Walk(old(phys), old(processes[p].mmuBase), at).Some?
      ensures ok && PrivateAddress(at) ==> Safe() && OthersSame(old(View()), View(), p, at)
    {
      IndicesSplitAddress(at);
      ghost var machine := View();
      ghost var roles :| Consistent(env, machine, roles);
      var pdEntry, ptEntry := DirIndex(at), TableIndex(at);
      TargetsApart(roles, p, pdEntry);
      NoWriteSucceedsIff(env, machine, roles, p, at);
      var entry, word := ReadDirectoryEntry(processes[p].mmuBase, pdEntry);
      if !entry.present {
        return false;
      }
      ok := ClearWrite(entry.pageTableAddress, ptEntry, word);
      if ok && PrivateAddress(at) {
        NoWriteKeepsSafe(machine, roles, p, at);
      }
    }

    lemma NoWriteKeepsSafe(before: Machine, roles: Roles, p: nat, at: u32)
      requires Valid() && Unmapped() && p < |before.processes| && PrivateAddress(at)
      requires Consistent(env, before, roles) && NoWrite(env, before, p, at) == Some(View())
      requires env.IsFrame(cr3) ==> exists k :: 0 <= k < |before.processes| && before.processes[k].mmuBase == cr3
      ensures Safe() && OthersSame(before, View(), p, at)
    {
      if at < KERNEL_BASE {
        NoWriteChangesOnePermission(env, before, roles, p, at);
      } else {
        NoWriteOfTempChangesNothing(env, before, roles, p, at);
      }
      assert Consistent(env, View(), roles);
      StepKeepsActive(before, Protect(p, at));
    }

    /** The first block of set_user_mem_no_write; it leaves the slot mapped when the assertion that the
      entry is present fails. */
    method ReadDirectoryEntry(pageDir: u32, pdEntry: nat) returns (entry: PageDirectoryEntry, ghost word: nat)
      requires Valid() && Unmapped() && pdEntry < ENTRIES
      requires pageDir % PAGE_SIZE == 0 && pageDir != env.KernelTable()
      modifies this`phys, this`locked, this`interrupts
      ensures Valid() && word == Word(old(phys), pageDir, pdEntry) && entry == DirectoryEntryOf(word)
      ensures entry.present ==> Unmapped() && phys == old(phys)
    {
      ghost var before := phys;
      MapTemp(pageDir);
      var w := LoadTemp(pdEntry, pageDir);
      word := w;
      WordAfterSet(before, env.KernelTable(), TEMP_INDEX, TempWord(pageDir), pageDir, pdEntry);
      entry := DirectoryEntryFromU32(w);
      if entry.present {
        SlotDetour(before, pageDir, pdEntry, w);
        UnmapTemp();
      }
    }

    /** The second block. In the kernel page table the entry found may be the slot's own. */
    method ClearWrite(pageTable: nat, ptEntry: nat, ghost pde: nat) returns (ok: bool)
      requires Valid() && Unmapped() && ptEntry < ENTRIES
      requires pageTable == PageOf(pde) && pageTable != cr3
      modifies this
      ensures Valid() && cr3 == old(cr3) && processes == old(processes)
      ensures var pte := WordWhileMapped(env, old(phys), pageTable, ptEntry);
              if Bit(pte, 0) then
                ok && Unmapped() && phys == ClearSlot(env, SetWord(old(phys), pageTable, ptEntry, ReadOnlyWord(pte)))
              else !ok
    {
      PageIsAligned(pde);
      ghost var before := phys;
      MapTemp(pageTable);
      var word := LoadTemp(ptEntry, pageTable);
      var entry := TableEntryFromU32(word);
      if !entry.present {
        return false;
      }
      entry := entry.(readWrite := false);
      var changed := EncodeAligned(entry, word);
      WriteAndUnmap(ptEntry, changed, pageTable, before);
      ok := true;
    }

    method EncodeAligned(entry: PageTableEntry, ghost word: nat) returns (w: nat)
      requires entry.pageAddress == PageOf(word)
      ensures w == TableWord(entry)
    {
      PageIsAligned(word);
      w := TableEntryAsU32(entry);
    }

    // ---------- Process creation ----------

    /** The memory part of the Process constructor: a fresh directory frame that receives a copy of
      the kernel's page directory through the slot. */
    method NewProcess() returns (ok: bool)
      requires Safe()
      modifies this, allocator.allocations.data
      ensures Valid() && cr3 == old(cr3)
      ensures match CreateProcess(env, old(View()))
              case None => !ok
              case Some(m) => ok && View() == m && Unmapped()
      ensures ok ==> Safe()
      ensures ok <==> |FreeFrames(old(allocator.Outstanding()))| >= 1
    {
      ghost var before := View();
      CreateSucceedsIff(env, before);
      ghost var roles :| Consistent(env, before, roles);
      var page := MakeDirectory(roles);
      if page == None {
        return false;
      }
      AddProcess(page.value);
      ok := true;
      CreateKeepsSafe(before, roles);
    }

    method AddProcess(mmuBase: nat)
      requires Valid() && Unmapped()
      modifies this`processes
      ensures Valid() && Unmapped()
      ensures View() == old(View()).(processes := old(processes) + [Process(mmuBase, [])])
    {
      processes := processes + [Process(mmuBase, [])];
    }

    /** allocate_physical_page and update_kernel_mappings. */
    method MakeDirectory(ghost roles: Roles) returns (page: Option<nat>)
      requires Safe() && Consistent(env, View(), roles)
      modifies this`phys, this`locked, this`interrupts, allocator.allocations.data
      ensures Valid()
      ensures var f := LowestFree(old(View()).taken);
              var a := FrameAddress(env.start, f);
              if f == FRAME_COUNT then page == None
              else && page == Some(a) && Unmapped()
                   && View() == Machine(old(phys)[a := env.kernelDirectory], old(View()).taken + {f}, processes)
    {
      ghost var before := View();
      page := allocator.AllocatePage();
      if page.Some? {
        FreshDirectory(before, roles);
        CopyKernelDirectory(page.value);
      }
    }

    lemma FreshDirectory(before: Machine, roles: Roles)
      requires Consistent(env, before, roles) && LowestFree(before.taken) < FRAME_COUNT
      requires env.IsFrame(cr3) ==> exists k :: 0 <= k < |before.processes| && before.processes[k].mmuBase == cr3
      ensures var a := FrameAddress(env.start, LowestFree(before.taken));
              && a < U32 && a % PAGE_SIZE == 0 && a != cr3 && a != env.KernelTable()
              && a in before.phys && |before.phys[a]| == ENTRIES
    {
      FreshFrame(env, before, roles);
      FrameAddressAligned(env.start, LowestFree(before.taken));
      if env.IsFrame(cr3) {
        var k :| 0 <= k < |before.processes| && before.processes[k].mmuBase == cr3;
        assert ProcessOK(env, before.phys, roles, k, cr3);
      }
    }

    lemma CreateKeepsSafe(before: Machine, roles: Roles)
      requires Valid() && Unmapped()
      requires Consistent(env, before, roles) && CreateProcess(env, before) == Some(View())
      requires env.IsFrame(cr3) ==> exists k :: 0 <= k < |before.processes| && before.processes[k].mmuBase == cr3
      ensures Safe()
    {
      var roles' := CreateEffect(env, before, roles);
      assert Consistent(env, View(), roles');
      StepKeepsActive(before, Create);
    }

    /** update_kernel_mappings: memcpy of the kernel's directory to the mapped page. */
    method CopyKernelDirectory(mmuBase: u32)
      requires Valid() && Unmapped() && mmuBase % PAGE_SIZE == 0
      requires mmuBase != cr3 && mmuBase != env.KernelTable()
      requires mmuBase in phys && |phys[mmuBase]| == ENTRIES
      modifies this`phys, this`locked, this`interrupts
      ensures Valid() && Unmapped() && interrupts == old(interrupts)
      ensures phys == old(phys)[mmuBase := env.kernelDirectory]
    {
      ghost var before := phys;
      MapTemp(mmuBase);
      CopyWords(mmuBase);
      UnmapTemp();
      SlotLeavesNoTrace(env, before, mmuBase, mmuBase, 0, 0);
      SetBack(before, env.KernelTable(), TEMP_INDEX);
    }

    /** The memcpy, word by word through the Temp address. */
    method CopyWords(ghost page: nat)
      requires Valid() && Mapped(page) && page != cr3 && page != env.KernelTable()
      requires page in phys && |phys[page]| == ENTRIES
      modifies this`phys
      ensures Valid() && Mapped(page)
      ensures phys == old(phys)[page := env.kernelDirectory]
    {
      CopyEnds(phys, page, env.kernelDirectory);
      for i := 0 to ENTRIES
        invariant Valid() && Mapped(page)
        invariant phys == CopiedTo(old(phys), page, env.kernelDirectory, i)
      {
        CopyOne(old(phys), page, env.kernelDirectory, i);
        StoreTemp(i, env.kernelDirectory[i], page);
      }
    }

    // ---------- Between the calls ----------

    /** MemoryMapping::set_mapping: process `p` becomes the active one. */
    method SetMapping(p: nat)
      requires Safe() && p < |processes|
      modifies this`cr3
      ensures Safe() && cr3 == processes[p].mmuBase && View() == old(View())
    {
      ghost var machine := View();
      ghost var roles :| Consistent(env, machine, roles);
      assert ProcessOK(env, phys, roles, p, processes[p].mmuBase);
      assert Word(phys, processes[p].mmuBase, KERNEL_INDEX) == env.KernelWord(KERNEL_INDEX);
      cr3 := processes[p].mmuBase;
      assert View() == machine;
    }

    /** A store instruction in user mode, as the processor carries it out; false is a page fault. */
    method StoreInUserMode(p: nat, va: u32, value: nat) returns (ok: bool)
      requires Safe() && p < |processes|
      modifies this`phys
      ensures Safe()
      ensures match UserStore(old(View()), p, va, value)
              case None => !ok && View() == old(View())
              case Some(m) => ok && View() == m
    {
      ghost var before := View();
      ghost var roles :| Consistent(env, before, roles);
      var dir := processes[p].mmuBase;
      var t := Walk(phys, dir, va);
      if t == None || !t.value.user || !t.value.writable {
        return false;
      }
      StoreKeepsSafe(before, roles, p, va, value);
      phys := SetWord(MarkEntries(phys, dir, va, true), t.value.frame, va % PAGE_SIZE / 4, value);
      assert Consistent(env, View(), roles);
      ok := true;
    }

    lemma StoreKeepsSafe(before: Machine, roles: Roles, p: nat, va: u32, value: nat)
      requires Safe() && before == View() && p < |processes|
      requires Consistent(env, before, roles) && UserStore(before, p, va, value).Some?
      ensures var m := UserStore(before, p, va, value).value;
              && Consistent(env, m, roles) && m == before.(phys := m.phys)
              && env.KernelTable() in m.phys && |m.phys[env.KernelTable()]| == ENTRIES
              && Word(m.phys, env.KernelTable(), TEMP_INDEX) == 0
              && Word(m.phys, cr3, KERNEL_INDEX) == env.KernelWord(KERNEL_INDEX)
    {
      UserStoreAt(env, before, roles, p, va, value);
      StoreWritesOwnFrames(env, before, roles, p, va, value);
      var m := UserStore(before, p, va, value).value;
      if env.IsFrame(cr3) {
        var k :| 0 <= k < |processes| && processes[k].mmuBase == cr3;
        assert ProcessOK(env, m.phys, roles, k, cr3);
      } else {
        assert Word(m.phys, cr3, KERNEL_INDEX) == Word(before.phys, cr3, KERNEL_INDEX);
      }
    }

    /** One operation, made by the method that carries it out. */
    method Call(op: MemoryOp) returns (ok: bool)
      requires Safe() && IsPrivate(op)
      modifies this, allocator.allocations.data
      ensures match StepOp(env, old(View()), op)
              case None => !ok
              case Some(m) => ok && Safe() && View() == m
    {
      if !op.Create? && op.p >= |processes| {
        return false;
      }
      match op
      case Create => ok := NewProcess();
      case Map(p, va) => ok := MapUserMemory(p, va);
      case Protect(p, va) => ok := SetUserMemNoWrite(p, va);
      case Store(p, va, value) => ok := StoreInUserMode(p, va, value);
    }

    /** Calls made one after the other: the guarded code runs exactly the run of the operations, so from
      boot on every state it comes to is isolated. */
    method Calls(ops: seq<MemoryOp>) returns (ok: bool)
      requires Safe() && forall k :: 0 <= k < |ops| ==> IsPrivate(ops[k])
      modifies this, allocator.allocations.data
      ensures match RunOps(env, old(View()), ops)
              case None => !ok
              case Some(m) => ok && Safe() && View() == m && (Booted(env, old(View())) ==> Isolated(env, m))
    {
      ghost var start := View();
      var i := 0;
      while i < |ops|
        invariant i <= |ops| && Safe()
        invariant RunOps(env, View(), ops[i..]) == RunOps(env, start, ops)
      {
        assert ops[i..][0] == ops[i] && ops[i..][1..] == ops[i + 1..];
        var done := Call(ops[i]);
        if !done {
          return false;
        }
        i := i + 1;
      }
      ok := true;
      if Booted(env, start) {
        EveryRunIsolated(env, start, ops);
      }
    }
  }
}
