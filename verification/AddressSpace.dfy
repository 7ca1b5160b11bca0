/** Address spaces over physical memory: the state that kernel/x86/memory.cpp works on, the page walk
  of the processor (section 4.3 of the Intel SDM, volume 3A), and the operations as functions. */
module AddressSpace {
  import opened Arithmetic
  import opened Wrappers
  import opened Bits
  import opened Paging
  import opened PhysicalMalloc

  const ENTRIES := 1024
  const KERNEL_INDEX := 768
  const KERNEL_BASE := 0xC000_0000

  /** Page frames by physical address, as 1024 words each. */
  type Phys = map<nat, seq<nat>>

  datatype Process = Process(mmuBase: nat, ownedPages: seq<nat>)

  datatype Machine = Machine(phys: Phys, taken: set<nat>, processes: seq<Process>)

  /** What boot fixes: the first allocatable page, the address of _kernel_start, and the kernel's own
    page directory, in which only the entry of the kernel page table is present. */
  datatype Env = Env(start: nat, kernelStart: nat, kernelDirectory: seq<nat>) {
    predicate IsFrame(a: nat) {
      a % PAGE_SIZE == 0 && start <= a < start + FRAME_COUNT * PAGE_SIZE
    }

    /** The kernel's own directory entry. */
    function KernelWord(di: nat): nat {
      if di < |kernelDirectory| then kernelDirectory[di] else 0
    }

    /** kernel_page_table, which every directory points to. */
    function KernelTable(): nat {
      PageOf(KernelWord(KERNEL_INDEX))
    }

    predicate Valid() {
      && start % PAGE_SIZE == 0 && start + FRAME_COUNT * PAGE_SIZE <= U32
      && KERNEL_BASE <= kernelStart <= KERNEL_BASE + 1024 * 0x1000
      && Bit(KernelWord(KERNEL_INDEX), 0) && Bit(KernelWord(KERNEL_INDEX), 1)
      && !Bit(KernelWord(KERNEL_INDEX), 2) && !IsFrame(KernelTable())
      && |kernelDirectory| == ENTRIES
      && (forall di :: 0 <= di < ENTRIES && di != KERNEL_INDEX ==> !Bit(KernelWord(di), 0))
    }
  }

  // ---------- Addresses and indices ----------

  function DirIndex(va: u32): nat {
    PageOf(va) / (1024 * 0x1000)
  }

  function TableIndex(va: u32): nat {
    va % (1024 * 0x1000) / 0x1000
  }

  function VirtualAddressFromIndices(di: nat, ti: nat): nat {
    di * 1024 * 0x1000 + ti * 0x1000
  }

  /** The two indices and the offset split an address, and the indices give back its page. */
  lemma IndicesSplitAddress(va: u32)
    ensures DirIndex(va) < ENTRIES && TableIndex(va) < ENTRIES
    ensures VirtualAddressFromIndices(DirIndex(va), TableIndex(va)) == PageOf(va) == va - va % PAGE_SIZE
    ensures DirIndex(va) < KERNEL_INDEX <==> va < KERNEL_BASE
  {
    var s, l := Shr(va, 12), Low(va, 12);
    WordParts(va);
    SplitPage(va);
    PageArithmetic(s, l);
  }

  lemma PageArithmetic(s: nat, l: nat)
    requires l < 4096
    ensures (4096 * s) / (1024 * 0x1000) == s / 1024
    ensures (4096 * s + l) % (1024 * 0x1000) / 0x1000 == s % 1024
    ensures (4096 * s + l) % 4096 == l
  {
    var q, r := s / 1024, s % 1024;
    var a := 4096 * s + l;
    assert a == 0x40_0000 * q + (4096 * r + l);
    QuotientIs(a, 0x40_0000, q, 4096 * r + l);
    QuotientIs(4096 * s, 0x40_0000, q, 4096 * r);
    QuotientIs(4096 * r + l, 4096, r, l);
    QuotientIs(a, 4096, s, l);
  }

  /** Two addresses share their indices exactly when they lie on the same page. */
  lemma SamePageIffSameIndices(va: u32, va': u32)
    ensures PageOf(va) == PageOf(va') <==> DirIndex(va) == DirIndex(va') && TableIndex(va) == TableIndex(va')
  {
    IndicesSplitAddress(va);
    IndicesSplitAddress(va');
  }

  /** Every pair of indices is the pair of exactly one page address. */
  lemma IndicesOfAddress(di: nat, ti: nat)
    requires di < ENTRIES && ti < ENTRIES
    ensures var va := VirtualAddressFromIndices(di, ti);
            va < U32 && DirIndex(va) == di && TableIndex(va) == ti
  {
    var va := VirtualAddressFromIndices(di, ti);
    assert va % 4096 == 0;
    PageOfAligned(va);
  }

  // ---------- Words of physical memory ----------

  function Word(phys: Phys, page: nat, i: nat): nat {
    if page in phys && i < |phys[page]| then phys[page][i] else 0
  }

  function SetWord(phys: Phys, page: nat, i: nat, w: nat): Phys {
    if page in phys && i < |phys[page]| then
      var words: seq<nat> := phys[page];
      phys[page := words[i := w]]
    else phys
  }

  // ---------- The page walk ----------

  datatype Translation = Translation(frame: nat, writable: bool, user: bool)

  function WalkAt(phys: Phys, dir: nat, di: nat, ti: nat): Option<Translation> {
    var pde := Word(phys, dir, di);
    var pte := Word(phys, PageOf(pde), ti);
    if Bit(pde, 0) && Bit(pte, 0) then
      Some(Translation(PageOf(pte), Bit(pde, 1) && Bit(pte, 1), Bit(pde, 2) && Bit(pte, 2)))
    else None
  }

  function Walk(phys: Phys, dir: nat, va: u32): Option<Translation> {
    WalkAt(phys, dir, DirIndex(va), TableIndex(va))
  }

  // ---------- The Temp slot ----------

  /** kernel::vmem::reserved::Temp and its index in the kernel page table. */
  const TEMP: u32 := 0xC000_1000
  const TEMP_INDEX := (TEMP - KERNEL_BASE) / 0x1000

  /** The entry that the constructor of PageMapGuard writes. */
  function TempWord(address: nat): nat {
    TableWord(NO_TABLE_ENTRY.(pageAddress := address, present := true, readWrite := true))
  }

  /** The constructor's write and the destructor's. */
  function FillSlot(env: Env, phys: Phys, page: nat): Phys {
    SetWord(phys, env.KernelTable(), TEMP_INDEX, TempWord(page))
  }

  function ClearSlot(env: Env, phys: Phys): Phys {
    SetWord(phys, env.KernelTable(), TEMP_INDEX, 0)
  }

  /** What a load through the Temp address finds in `page`. In the kernel page table, the slot's own
    entry is there to be found. */
  function WordWhileMapped(env: Env, phys: Phys, page: nat, i: nat): nat {
    Word(FillSlot(env, phys, page), page, i)
  }

  // ---------- The operations ----------

  function UserDirectoryWord(table: nat): nat {
    DirectoryWord(NO_DIRECTORY_ENTRY.(pageTableAddress := table, user := true, readWrite := true, present := true))
  }

  function UserTableWord(frame: nat): nat {
    TableWord(NO_TABLE_ENTRY.(pageAddress := frame, readWrite := true, user := true, present := true))
  }

  function ReadOnlyWord(pte: nat): nat {
    TableWord(TableEntryOf(pte).(readWrite := false))
  }

  /** allocate_physical_page followed by Process::take_memory_page. */
  function TakePage(env: Env, m: Machine, p: nat): Option<(Machine, nat)>
    requires p < |m.processes|
  {
    var f := LowestFree(m.taken);
    if f == FRAME_COUNT then None else
      var a := FrameAddress(env.start, f);
      var owner := m.processes[p];
      Some((m.(taken := m.taken + {f},
               processes := m.processes[p := owner.(ownedPages := owner.ownedPages + [a])]), a))
  }

  /** The second block of map_user_memory: the store through the slot, and the destructor that clears
    the slot behind it. */
  function InstallPage(env: Env, m: Machine, p: nat, table: nat, ti: nat): Option<Machine>
    requires p < |m.processes|
  {
    match TakePage(env, m, p)
    case None => None
    case Some((m', frame)) =>
      Some(m'.(phys := ClearSlot(env, SetWord(m'.phys, table, ti, UserTableWord(frame)))))
  }

  /** map_user_memory for a pair of indices; None is a kernel panic. */
  function MapAt(env: Env, m: Machine, p: nat, di: nat, ti: nat): Option<Machine>
    requires p < |m.processes|
  {
    var dir := m.processes[p].mmuBase;
    var pde := Word(m.phys, dir, di);
    if Bit(pde, 0) then
      InstallPage(env, m, p, PageOf(pde), ti)
    else
      match TakePage(env, m, p)
      case None => None
      case Some((m', table)) =>
        InstallPage(env, m'.(phys := SetWord(m'.phys, dir, di, UserDirectoryWord(table))), p, table, ti)
  }

  function MapUser(env: Env, m: Machine, p: nat, va: u32): Option<Machine>
    requires p < |m.processes|
  {
    if va >= env.kernelStart then None else MapAt(env, m, p, DirIndex(va), TableIndex(va))
  }

  /** set_user_mem_no_write; None is a failed assertion that the page is mapped. */
  function NoWrite(env: Env, m: Machine, p: nat, va: u32): Option<Machine>
    requires p < |m.processes|
  {
    var pde := Word(m.phys, m.processes[p].mmuBase, DirIndex(va));
    var table := PageOf(pde);
    var pte := WordWhileMapped(env, m.phys, table, TableIndex(va));
    if !Bit(pde, 0) || !Bit(pte, 0) then None
    else Some(m.(phys := ClearSlot(env, SetWord(m.phys, table, TableIndex(va), ReadOnlyWord(pte)))))
  }

  /** The memory part of the Process constructor: a directory frame holding a copy of the kernel's. */
  function CreateProcess(env: Env, m: Machine): Option<Machine> {
    var f := LowestFree(m.taken);
    if f == FRAME_COUNT then None else
      var a := FrameAddress(env.start, f);
      Some(Machine(m.phys[a := env.kernelDirectory], m.taken + {f}, m.processes + [Process(a, [])]))
  }

  /** The processor marks the entries it walks: accessed on every use, dirty on a store. */
  function MarkEntries(phys: Phys, dir: nat, va: u32, store: bool): Phys {
    var pde := Word(phys, dir, DirIndex(va));
    var phys' := SetWord(phys, dir, DirIndex(va), Or(pde, 0x20));
    var pte := Word(phys', PageOf(pde), TableIndex(va));
    SetWord(phys', PageOf(pde), TableIndex(va), Or(pte, if store then 0x60 else 0x20))
  }

  /** A store in user mode; None is a page fault. */
  function UserStore(m: Machine, p: nat, va: u32, value: nat): Option<Machine>
    requires p < |m.processes|
  {
    var dir := m.processes[p].mmuBase;
    match Walk(m.phys, dir, va)
    case None => None
    case Some(t) =>
      if !t.user || !t.writable then None
      else Some(m.(phys := SetWord(MarkEntries(m.phys, dir, va, true), t.frame, va % PAGE_SIZE / 4, value)))
  }

  /** The word a load in user mode reads; None is a page fault. */
  function UserLoad(m: Machine, p: nat, va: u32): Option<nat>
    requires p < |m.processes|
  {
    match Walk(m.phys, m.processes[p].mmuBase, va)
    case None => None
    case Some(t) => if t.user then Some(Word(m.phys, t.frame, va % PAGE_SIZE / 4)) else None
  }

  // ---------- Words of new entries ----------

  lemma UserWords(a: u32)
    requires a % PAGE_SIZE == 0
    ensures var w := UserDirectoryWord(a); Bit(w, 0) && Bit(w, 1) && Bit(w, 2) && PageOf(w) == a
    ensures var w := UserTableWord(a); Bit(w, 0) && Bit(w, 1) && Bit(w, 2) && PageOf(w) == a
  {
    PageOfAligned(a);
    var d := NO_DIRECTORY_ENTRY.(pageTableAddress := a, user := true, readWrite := true, present := true);
    var t := NO_TABLE_ENTRY.(pageAddress := a, readWrite := true, user := true, present := true);
    DirectoryWordFields(d);
    TableWordFields(t);
    assert DirectoryFlags(d)[0] && DirectoryFlags(d)[1] && DirectoryFlags(d)[2];
    assert TableFlags(t)[0] && TableFlags(t)[1] && TableFlags(t)[2];
  }

  /** Clearing the write flag of a word keeps its page and every flag but the write bit, save that
    bit 6 has moved to bit 7. */
  lemma ReadOnlyWordFields(pte: nat)
    ensures var w := ReadOnlyWord(pte);
            && !Bit(w, 1) && PageOf(w) == PageOf(pte) && Available(w) == Available(pte)
            && !Bit(w, 6) && Bit(w, 7) == Bit(pte, 6)
            && (forall k :: 0 <= k < 9 && k != 1 && k != 6 && k != 7 ==> Bit(w, k) == Bit(pte, k))
  {
    var e := TableEntryOf(pte).(readWrite := false);
    TableWordFields(e);
    PageOfPage(pte);
    forall k | 0 <= k < 9
      ensures Bit(TableWord(e), k) == if k == 1 || k == 6 then false else if k == 7 then Bit(pte, 6) else Bit(pte, k)
    {
      ReadOnlyFlags(pte, k);
    }
  }

  lemma ReadOnlyFlags(pte: nat, k: nat)
    requires k < 9
    ensures TableFlags(TableEntryOf(pte).(readWrite := false))[k]
         == if k == 1 || k == 6 then false else if k == 7 then Bit(pte, 6) else Bit(pte, k)
  {
  }

  lemma MarksKeepTranslation(w: nat, marks: nat)
    requires marks == 0x20 || marks == 0x60
    ensures var v := Or(w, marks);
            Bit(v, 0) == Bit(w, 0) && Bit(v, 1) == Bit(w, 1) && Bit(v, 2) == Bit(w, 2) && PageOf(v) == PageOf(w)
  {
    BitOfOr(w, marks, 0);
    BitOfOr(w, marks, 1);
    BitOfOr(w, marks, 2);
    assert !Bit(0x20, 0) && !Bit(0x20, 1) && !Bit(0x20, 2) && Shr(0x20, 12) == 0;
    assert !Bit(0x60, 0) && !Bit(0x60, 1) && !Bit(0x60, 2) && Shr(0x60, 12) == 0;
    ShrOfOr(w, marks, 12);
    ZeroOperand(Shr(w, 12));
  }

  // ---------- The slot's word ----------

  lemma TempWordFields(address: u32)
    requires address % PAGE_SIZE == 0
    ensures var w := TempWord(address); Bit(w, 0) && Bit(w, 1) && PageOf(w) == address
    ensures TableWord(NO_TABLE_ENTRY) == 0
  {
    var e := NO_TABLE_ENTRY.(pageAddress := address, present := true, readWrite := true);
    PageOfAligned(address);
    TableWordFields(e);
    assert TableFlags(e)[0] && TableFlags(e)[1];
    EmptyEntryIsZero();
  }

  lemma EmptyEntryIsZero()
    ensures TableWord(NO_TABLE_ENTRY) == 0
  {
    ZeroShift(12);
    ZeroShift(20);
    var none := [false, false, false, false, false, false, false, false, false];
    assert TableFlags(NO_TABLE_ENTRY) == none;
    StackOfZeros(none);
  }

  lemma {:induction false} StackOfZeros(flags: seq<bool>)
    requires forall k :: 0 <= k < |flags| ==> !flags[k]
    ensures Stack(flags, 0) == 0
  {
    if flags != [] {
      StackOfZeros(flags[1..]);
    }
  }

  lemma TempIndices()
    ensures DirIndex(TEMP) == KERNEL_INDEX && TableIndex(TEMP) == TEMP_INDEX == 1
  {
    IndicesOfAddress(KERNEL_INDEX, 1);
  }

  /** The page of Temp: the addresses that the slot translates. */
  predicate InTempPage(va: u32) {
    DirIndex(va) == KERNEL_INDEX && TableIndex(va) == TEMP_INDEX
  }

  lemma InTempPageIs(va: u32)
    ensures InTempPage(va) <==> TEMP <= va < TEMP + PAGE_SIZE
  {
    IndicesSplitAddress(va);
    TempIndices();
    SamePageIffSameIndices(va, TEMP);
    IndicesSplitAddress(TEMP);
  }

  /** Mapping the slot, writing a word through it and clearing the slot again amounts to the one write
    and a cleared slot, even when the word written is the slot's own. */
  lemma SlotLeavesNoTrace(env: Env, phys: Phys, mapped: nat, page: nat, i: nat, w: nat)
    ensures ClearSlot(env, SetWord(FillSlot(env, phys, mapped), page, i, w))
         == ClearSlot(env, SetWord(phys, page, i, w))
    ensures ClearSlot(env, FillSlot(env, phys, mapped)) == ClearSlot(env, phys)
  {
    var slot := env.KernelTable();
    if page != slot || i != TEMP_INDEX {
      SetsCommute(FillSlot(env, phys, mapped), page, i, w, slot, TEMP_INDEX, 0);
      SetsCommute(phys, page, i, w, slot, TEMP_INDEX, 0);
      SetTwice(phys, slot, TEMP_INDEX, TempWord(mapped), 0);
    } else {
      SetTwice(FillSlot(env, phys, mapped), slot, TEMP_INDEX, w, 0);
      SetTwice(phys, slot, TEMP_INDEX, TempWord(mapped), 0);
      SetTwice(phys, slot, TEMP_INDEX, w, 0);
    }
    SetTwice(phys, slot, TEMP_INDEX, TempWord(mapped), 0);
  }

  /** A clear slot stays clear under any other write. */
  lemma SlotStaysClear(env: Env, phys: Phys, page: nat, i: nat, w: nat)
    requires Word(phys, env.KernelTable(), TEMP_INDEX) == 0
    requires page != env.KernelTable() || i != TEMP_INDEX
    ensures ClearSlot(env, SetWord(phys, page, i, w)) == SetWord(phys, page, i, w)
  {
    SetBack(SetWord(phys, page, i, w), env.KernelTable(), TEMP_INDEX);
  }

  /** A write to the slot's own entry is undone by the destructor. */
  lemma SlotWriteIsUndone(env: Env, phys: Phys, w: nat)
    requires Word(phys, env.KernelTable(), TEMP_INDEX) == 0
    ensures ClearSlot(env, SetWord(phys, env.KernelTable(), TEMP_INDEX, w)) == phys
  {
    SetTwice(phys, env.KernelTable(), TEMP_INDEX, w, 0);
    SetBack(phys, env.KernelTable(), TEMP_INDEX);
  }

  lemma SetBack(phys: Phys, page: nat, i: nat)
    ensures SetWord(phys, page, i, Word(phys, page, i)) == phys
  {
    if page in phys && i < |phys[page]| {
      var words: seq<nat> := phys[page];
      assert words[i := words[i]] == words;
    }
  }

  lemma SetTwice(phys: Phys, page: nat, i: nat, v: nat, w: nat)
    ensures SetWord(SetWord(phys, page, i, v), page, i, w) == SetWord(phys, page, i, w)
  {
    if page in phys && i < |phys[page]| {
      var words: seq<nat> := phys[page];
      assert words[i := v][i := w] == words[i := w];
    }
  }

  lemma SetsCommute(phys: Phys, page: nat, i: nat, w: nat, page': nat, i': nat, w': nat)
    requires page != page' || i != i'
    ensures SetWord(SetWord(phys, page, i, w), page', i', w') == SetWord(SetWord(phys, page', i', w'), page, i, w)
  {
    if page == page' && page in phys && i < |phys[page]| && i' < |phys[page]| {
      var words: seq<nat> := phys[page];
      assert words[i := w][i' := w'] == words[i' := w'][i := w];
    }
  }
}
