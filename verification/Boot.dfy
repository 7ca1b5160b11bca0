/** The kernel's page table and directory as `reinit_page_directory` of kernel/x86/memory.cpp fills them,
  and the boot state that the runs of EveryRun start from. */
module Boot {
  import opened Wrappers
  import opened Bits
  import opened Paging
  import opened PhysicalMalloc
  import opened AddressSpace
  import opened Isolation
  import opened IsolationRuns
  import opened EveryRun

  const VGA_INDEX := 2
  const VGA_ADDRESS: u32 := 0xB_8000

  /** The sections that the linker script lays out, by physical address. */
  datatype Image = Image(nonwritableStart: nat, nonwritableEnd: nat, writableStart: nat, writableEnd: nat,
                         heapStart: nat, heapEnd: nat) {
    /** The order and alignment that script and assertions give. The kernel starts behind the first
      megabyte, and all of it lies below the end of the one page table. */
    predicate Valid() {
      && 0x10_0000 <= nonwritableStart <= nonwritableEnd <= writableStart <= writableEnd <= heapStart <= heapEnd
      && nonwritableStart % PAGE_SIZE == 0 && writableStart % PAGE_SIZE == 0 && heapStart % PAGE_SIZE == 0
      && heapEnd % PAGE_SIZE == 0 && heapEnd < ENTRIES * PAGE_SIZE
    }
  }

  /** The entry init_kernel_area writes for page `i`. */
  function AreaWord(readWrite: bool, i: nat): nat {
    TableWord(NO_TABLE_ENTRY.(pageAddress := PAGE_SIZE * i, present := true, readWrite := readWrite))
  }

  lemma AreaWordFields(readWrite: bool, i: nat)
    requires i < ENTRIES
    ensures var w := AreaWord(readWrite, i); Bit(w, 0) && Bit(w, 1) == readWrite && PageOf(w) == PAGE_SIZE * i
  {
    var e := NO_TABLE_ENTRY.(pageAddress := PAGE_SIZE * i, present := true, readWrite := readWrite);
    PageOfAligned(PAGE_SIZE * i);
    TableWordFields(e);
    assert TableFlags(e)[0] && TableFlags(e)[1] == readWrite;
  }

  function VgaWord(): nat {
    TableWord(NO_TABLE_ENTRY.(pageAddress := VGA_ADDRESS, present := true, readWrite := true))
  }

  /** Page `i` is one that init_kernel_area maps for an area; the page of the end address is one of them,
    even when the area ends just before it. */
  predicate InArea(start: nat, stop: nat, i: nat) {
    start / PAGE_SIZE <= i <= stop / PAGE_SIZE
  }

  method InitKernelArea(table: array<nat>, readWrite: bool, start: nat, stop: nat)
    requires table.Length == ENTRIES && start % PAGE_SIZE == 0 && start <= stop < ENTRIES * PAGE_SIZE
    modifies table
    ensures forall i :: 0 <= i < ENTRIES ==>
              table[i] == if InArea(start, stop, i) then AreaWord(readWrite, i) else old(table[i])
  {
    var startPage, endPage := start / PAGE_SIZE, stop / PAGE_SIZE + 1;
    var settings := NO_TABLE_ENTRY.(readWrite := readWrite);
    for physicalPage := startPage to endPage
      invariant settings.(pageAddress := 0, present := false) == NO_TABLE_ENTRY.(readWrite := readWrite)
      invariant forall i :: 0 <= i < ENTRIES ==>
                  table[i] == if startPage <= i < physicalPage then AreaWord(readWrite, i) else old(table[i])
    {
      settings := settings.(pageAddress := physicalPage * PAGE_SIZE, present := true);
      var word := TableEntryAsU32(settings);
      var index := physicalPage % 0x1000;
      table[index] := word;
    }
  }

  /** kernel_page_table after boot. Later areas overwrite earlier ones where they meet. */
  function BootTable(image: Image): seq<nat> {
    seq(ENTRIES, i requires 0 <= i < ENTRIES =>
      if i == VGA_INDEX then VgaWord()
      else if InArea(image.heapStart, image.heapEnd, i) then AreaWord(true, i)
      else if InArea(image.writableStart, image.writableEnd, i) then AreaWord(true, i)
      else if InArea(image.nonwritableStart, image.nonwritableEnd, i) then AreaWord(false, i)
      else 0)
  }

  function KernelDirectoryWord(table: nat): nat {
    DirectoryWord(NO_DIRECTORY_ENTRY.(pageTableAddress := table, present := true, readWrite := true))
  }

  lemma KernelDirectoryWordFields(table: u32)
    requires table % PAGE_SIZE == 0
    ensures var w := KernelDirectoryWord(table); Bit(w, 0) && Bit(w, 1) && !Bit(w, 2) && PageOf(w) == table
  {
    var e := NO_DIRECTORY_ENTRY.(pageTableAddress := table, present := true, readWrite := true);
    PageOfAligned(table);
    DirectoryWordFields(e);
    assert DirectoryFlags(e)[0] && DirectoryFlags(e)[1] && !DirectoryFlags(e)[2];
  }

  /** kernel_page_directory after boot: the kernel page table and nothing else. */
  function BootDirectory(tableAddress: nat): seq<nat> {
    seq(ENTRIES, di requires 0 <= di < ENTRIES => if di == KERNEL_INDEX then KernelDirectoryWord(tableAddress) else 0)
  }

  /** reinit_page_directory, on table and directory as the loader leaves them. */
  method ReinitPageDirectory(table: array<nat>, directory: array<nat>, tableAddress: u32, image: Image)
    requires image.Valid() && table != directory && table.Length == directory.Length == ENTRIES
    requires tableAddress % PAGE_SIZE == 0
    requires forall i :: 0 <= i < ENTRIES ==> table[i] == 0 && directory[i] == 0
    modifies table, directory
    ensures table[..] == BootTable(image) && directory[..] == BootDirectory(tableAddress)
  {
    InitKernelArea(table, false, image.nonwritableStart, image.nonwritableEnd);
    InitKernelArea(table, true, image.writableStart, image.writableEnd);
    InitKernelArea(table, true, image.heapStart, image.heapEnd);
    var vga := TableEntryAsU32(NO_TABLE_ENTRY.(pageAddress := VGA_ADDRESS, present := true, readWrite := true));
    table[VGA_INDEX] := vga;
    var entry := NO_DIRECTORY_ENTRY.(pageTableAddress := tableAddress, present := true, readWrite := true);
    var word := DirectoryEntryAsU32(entry);
    directory[KERNEL_INDEX] := word;
  }

  // ---------- The boot state ----------

  /** Where kernel_page_table and kernel_page_directory lie: on pages of their own in the writable section. */
  predicate Placed(image: Image, tableAddress: nat, dirAddress: nat) {
    && image.Valid() && tableAddress != dirAddress
    && tableAddress % PAGE_SIZE == 0 && image.writableStart <= tableAddress < image.writableEnd
    && dirAddress % PAGE_SIZE == 0 && image.writableStart <= dirAddress < image.writableEnd
  }

  function BootEnv(image: Image, tableAddress: nat): Env {
    Env(image.heapEnd, KERNEL_BASE + image.nonwritableStart, BootDirectory(tableAddress))
  }

  /** Allocatable frames of zeros, with the kernel's page table and directory in front of them. */
  function BootMemory(env: Env, table: seq<nat>, tableAddress: nat, directory: seq<nat>, dirAddress: nat): Phys {
    var zeros: seq<nat> := seq(ENTRIES, _ => 0);
    var frames := map a: nat | env.start <= a < env.start + FRAME_COUNT * PAGE_SIZE && env.IsFrame(a) :: zeros;
    frames[tableAddress := table][dirAddress := directory]
  }

  function BootMachine(image: Image, tableAddress: nat, dirAddress: nat): Machine {
    var env := BootEnv(image, tableAddress);
    Machine(BootMemory(env, BootTable(image), tableAddress, BootDirectory(tableAddress), dirAddress), {}, [])
  }

  lemma BootFramesAreZero(image: Image, tableAddress: u32, dirAddress: u32, a: nat)
    requires Placed(image, tableAddress, dirAddress) && BootEnv(image, tableAddress).IsFrame(a)
    ensures var phys := BootMachine(image, tableAddress, dirAddress).phys;
            a in phys && |phys[a]| == ENTRIES && forall i :: 0 <= i < ENTRIES ==> phys[a][i] == 0
  {
  }

  lemma BootPages(image: Image, tableAddress: u32, dirAddress: u32)
    requires Placed(image, tableAddress, dirAddress)
    ensures var phys := BootMachine(image, tableAddress, dirAddress).phys;
            && tableAddress in phys && phys[tableAddress] == BootTable(image)
            && dirAddress in phys && phys[dirAddress] == BootDirectory(tableAddress)
  {
  }

  /** What the first entries of the table hold: the slot is clear, and below the kernel only the VGA page
    is mapped. */
  lemma BelowTheKernel(image: Image, i: nat)
    requires image.Valid() && i < image.nonwritableStart / PAGE_SIZE
    ensures BootTable(image)[i] == if i == VGA_INDEX then VgaWord() else 0
    ensures TEMP_INDEX < image.nonwritableStart / PAGE_SIZE && BootTable(image)[TEMP_INDEX] == 0
  {
  }

  lemma VgaWordFields()
    ensures PageOf(VgaWord()) == VGA_ADDRESS && Bit(VgaWord(), 0) && Bit(VgaWord(), 1)
  {
    var e := NO_TABLE_ENTRY.(pageAddress := VGA_ADDRESS, present := true, readWrite := true);
    PageOfAligned(VGA_ADDRESS);
    TableWordFields(e);
    assert TableFlags(e)[0] && TableFlags(e)[1];
  }

  lemma BootEnvValid(image: Image, tableAddress: u32)
    requires image.Valid() && tableAddress % PAGE_SIZE == 0 && image.writableStart <= tableAddress < image.writableEnd
    ensures BootEnv(image, tableAddress).Valid() && BootEnv(image, tableAddress).KernelTable() == tableAddress
  {
    KernelDirectoryWordFields(tableAddress);
    assert !Bit(0, 0);
  }

  /** No page below the kernel is mapped to an allocatable frame. */
  lemma BootEntryOK(image: Image, tableAddress: u32, dirAddress: u32, di: nat, ti: nat)
    requires Placed(image, tableAddress, dirAddress) && KERNEL_INDEX <= di < ENTRIES && ti < ENTRIES
    ensures KernelEntryOK(BootEnv(image, tableAddress), BootMachine(image, tableAddress, dirAddress).phys, di, ti)
  {
    BootEnvValid(image, tableAddress);
    assert !Bit(0, 0);
    if di == KERNEL_INDEX && ti < image.nonwritableStart / PAGE_SIZE {
      BelowTheKernel(image, ti);
      BootPages(image, tableAddress, dirAddress);
      VgaWordFields();
    }
  }

  lemma BootKernelOK(image: Image, tableAddress: u32, dirAddress: u32)
    requires Placed(image, tableAddress, dirAddress)
    ensures KernelOK(BootEnv(image, tableAddress), BootMachine(image, tableAddress, dirAddress).phys)
  {
    BootEnvValid(image, tableAddress);
    BootPages(image, tableAddress, dirAddress);
    BelowTheKernel(image, 0);
    forall di, ti | KERNEL_INDEX <= di < ENTRIES && 0 <= ti < ENTRIES
      ensures KernelEntryOK(BootEnv(image, tableAddress), BootMachine(image, tableAddress, dirAddress).phys, di, ti)
    {
      BootEntryOK(image, tableAddress, dirAddress, di, ti);
    }
  }

  /** The state boot leaves is one that every run may start from, for every layout of the sections. */
  lemma BootStateIsBooted(image: Image, tableAddress: u32, dirAddress: u32)
    requires Placed(image, tableAddress, dirAddress)
    ensures Booted(BootEnv(image, tableAddress), BootMachine(image, tableAddress, dirAddress))
  {
    var env, m := BootEnv(image, tableAddress), BootMachine(image, tableAddress, dirAddress);
    BootEnvValid(image, tableAddress);
    BootKernelOK(image, tableAddress, dirAddress);
    forall a | env.IsFrame(a)
      ensures a in m.phys && |m.phys[a]| == ENTRIES && forall i :: 0 <= i < ENTRIES ==> m.phys[a][i] == 0
    {
      BootFramesAreZero(image, tableAddress, dirAddress, a);
    }
  }

  /** The kernel's own directory has the kernel half, and lies outside the allocatable frames. */
  lemma BootDirectoryActive(image: Image, tableAddress: u32, dirAddress: u32)
    requires Placed(image, tableAddress, dirAddress)
    ensures var env := BootEnv(image, tableAddress);
            && !env.IsFrame(dirAddress)
            && Word(BootMachine(image, tableAddress, dirAddress).phys, dirAddress, KERNEL_INDEX)
               == env.KernelWord(KERNEL_INDEX)
  {
    BootPages(image, tableAddress, dirAddress);
  }

  /** Some address from `start` to `stop`, the end included, lies on the page of `a`. */
  ghost predicate OnPageOf(start: nat, stop: nat, a: nat) {
    exists b: nat :: start <= b <= stop && b / PAGE_SIZE == a / PAGE_SIZE
  }

  lemma InAreaIff(start: nat, stop: nat, a: nat)
    requires start <= stop
    ensures InArea(start, stop, a / PAGE_SIZE) <==> OnPageOf(start, stop, a)
  {
    var i := a / PAGE_SIZE;
    if InArea(start, stop, i) {
      var b := if start / PAGE_SIZE == i then start else PAGE_SIZE * i;
      assert start <= b <= stop && b / PAGE_SIZE == a / PAGE_SIZE;
    }
  }

  /** What boot maps at `a` bytes above 0xC0000000: the VGA page in its place, and else the page itself where it
    meets one of the areas, writable where it meets the writable sections or the heap. */
  ghost function MappedAt(image: Image, a: nat): Option<Translation> {
    var writable := OnPageOf(image.writableStart, image.writableEnd, a) || OnPageOf(image.heapStart, image.heapEnd, a);
    if a / PAGE_SIZE == VGA_INDEX then Some(Translation(VGA_ADDRESS, true, false))
    else if writable || OnPageOf(image.nonwritableStart, image.nonwritableEnd, a) then
      Some(Translation(a - a % PAGE_SIZE, writable, false))
    else None
  }

  lemma BootWordFields(image: Image, i: nat)
    requires i < ENTRIES
    ensures var w := BootTable(image)[i];
            var writable := InArea(image.writableStart, image.writableEnd, i)
                            || InArea(image.heapStart, image.heapEnd, i);
            if i == VGA_INDEX then Bit(w, 0) && Bit(w, 1) && PageOf(w) == VGA_ADDRESS
            else if writable || InArea(image.nonwritableStart, image.nonwritableEnd, i) then
              Bit(w, 0) && Bit(w, 1) == writable && PageOf(w) == PAGE_SIZE * i
            else !Bit(w, 0)
  {
    AreaWordFields(true, i);
    AreaWordFields(false, i);
    VgaWordFields();
    assert !Bit(0, 0);
  }

  lemma TableEntryMaps(image: Image, a: nat, i: nat)
    requires image.Valid() && i < ENTRIES && i == a / PAGE_SIZE
    ensures var w := BootTable(image)[i];
            var t := MappedAt(image, a);
            if Bit(w, 0) then t == Some(Translation(PageOf(w), Bit(w, 1), false)) else t == None
  {
    BootWordFields(image, i);
    InAreaIff(image.nonwritableStart, image.nonwritableEnd, a);
    InAreaIff(image.writableStart, image.writableEnd, a);
    InAreaIff(image.heapStart, image.heapEnd, a);
    assert a - a % PAGE_SIZE == PAGE_SIZE * i;
  }

  /** The translations of the kernel's own directory after boot, for every address: nothing outside the four
    megabytes from 0xC0000000 on, and there what MappedAt says. No user code reaches any of it. */
  lemma BootTranslations(image: Image, tableAddress: u32, dirAddress: u32, va: u32)
    requires Placed(image, tableAddress, dirAddress)
    ensures Walk(BootMachine(image, tableAddress, dirAddress).phys, dirAddress, va)
         == if KERNEL_BASE <= va < KERNEL_BASE + ENTRIES * PAGE_SIZE then MappedAt(image, va - KERNEL_BASE) else None
  {
    IndicesSplitAddress(va);
    IndicesInKernelTable(va, DirIndex(va), TableIndex(va));
    BootPages(image, tableAddress, dirAddress);
    KernelDirectoryWordFields(tableAddress);
    assert !Bit(0, 0);
    if DirIndex(va) == KERNEL_INDEX {
      TableEntryMaps(image, va - KERNEL_BASE, TableIndex(va));
    }
  }

  lemma IndicesInKernelTable(va: u32, di: nat, ti: nat)
    requires di < ENTRIES && ti < ENTRIES && VirtualAddressFromIndices(di, ti) == va - va % PAGE_SIZE
    ensures di == KERNEL_INDEX <==> KERNEL_BASE <= va < KERNEL_BASE + ENTRIES * PAGE_SIZE
    ensures di == KERNEL_INDEX ==> ti == (va - KERNEL_BASE) / PAGE_SIZE
  {
  }

  /** init_kernel_area maps one page more than the heap has: the first allocatable frame, the one that will
    become the first process's page directory, is writable in the kernel half from boot on, in the kernel's own
    directory and in every other one with its half. */
  lemma HeapOverrunMapsFirstFrame(image: Image, tableAddress: u32, dirAddress: u32, dir: nat)
    requires Placed(image, tableAddress, dirAddress)
    requires dir == dirAddress ||
             Word(BootMachine(image, tableAddress, dirAddress).phys, dir, KERNEL_INDEX)
             == BootEnv(image, tableAddress).KernelWord(KERNEL_INDEX)
    ensures var env := BootEnv(image, tableAddress);
            && FrameAddress(env.start, 0) == image.heapEnd
            && WalkAt(BootMachine(image, tableAddress, dirAddress).phys, dir, KERNEL_INDEX, image.heapEnd / PAGE_SIZE)
               == Some(Translation(FrameAddress(env.start, 0), true, false))
  {
    var i := image.heapEnd / PAGE_SIZE;
    BootDirectoryActive(image, tableAddress, dirAddress);
    KernelDirectoryWordFields(tableAddress);
    AreaWordFields(true, i);
    assert BootTable(image)[i] == AreaWord(true, i);
    BootPages(image, tableAddress, dirAddress);
  }
}
