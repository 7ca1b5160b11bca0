# Verified model of the bunos kernel

bunos is a small 32-bit x86 kernel with its own libc and container library. This project models the
parts of it that carry hard properties and proves them in Dafny 4.11. `dafny verify dfyconfig.toml`
checks everything.

## What is modelled

| files | what they are about |
|---|---|
| `HeapChain`, `KernelHeap`, `HeapRuns` | the kernel heap: block headers stored in the heap itself, the chain they form, and every run of `allocate` and `deallocate` |
| `Bitfield`, `PhysicalMalloc`, `AllocationRace` | the packed bitfield, the page-frame allocator over it, and what preemption does to it |
| `Bits`, `Paging` | page directory and page table entries as words |
| `AddressSpace`, `Isolation`, `IsolationRuns`, `MemoryOutcomes`, `EveryRun` | address spaces, the processor's page walk, `map_user_memory`, `set_user_mem_no_write` and process creation as functions, and isolation between processes over every run |
| `Boot` | the kernel page table and directory as boot fills them, and the state that runs start from |
| `UserMemory`, `BootedKernel` | the same operations as the code runs them, through the Temp slot and its lock, and sequences of them from boot on |
| `LockProtocol`, `LockProgress` | interrupt guards, the spin lock and the page map guard as interleaved steps of several tasks and interrupt handlers: what they keep, and when a waiting task gets the lock |
| `RingBuffer`, `Serial` | the ring buffer as a bounded FIFO and the serial driver over it |
| `Vga` | the text console as a window onto an unbounded terminal |
| `Memory`, `Pata`, `Ext2`, `Ext2File`, `Ext2Directory`, `Ext2Layout` | the ext2 read path down to the bytes of the disk, and the records on it field by field |
| `Digits`, `Stdio`, `Stdlib`, `StrtollStandard`, `PrintParse`, `DebugSymbols` | number printing, `strtoll`, its standard, their round trips, and the kernel symbol table |

Code that updates state in place is a class or a method over arrays, proved equal to a function of the
old state; the properties of those functions are lemmas. `Option` and outcome types stand for kernel
panics and failed assertions.

Stated once, for all modules:

- The heap allocator's ghost `chain` is the sequence of real blocks. Headers that merging leaves behind,
  and everything in payloads, are unconstrained entries of the header arrays. sizeof(Block) and
  offsetof(AlignedBlock, align) are parameters; the properties hold for every value up to half a block.
- Physical memory is frame address to 1024 words. The processor's walk follows section 4.3 of the
  Intel SDM, volume 3A, and sets accessed and dirty bits on stores in user mode. At boot the allocatable frames hold
  zeros; `NewTableKeepsOthersIff` says exactly what that assumption is for. The kernel's page directory
  holds the one entry that boot writes; `map_kernel_memory`, which could add others, has no callers.
- The disk is a byte sequence of whole sectors. Block offsets are 32-bit products, as in the code.
- The line-status register of the serial port, the order of interrupts and the choice of the next task
  are inputs of the step systems (`Serial`, `LockProtocol`, `LockProgress`, `AllocationRace`), so every
  interleaving of their steps is covered. The operations on memory of `IsolationRuns`, `EveryRun` and
  `UserMemory` are single steps.
- Words are natural numbers with their own bitwise operators (`Bits`, with `Arithmetic` and `Wrappers` shared
  by all modules); the bitfield's bytes and the console's cells are bit vectors. 32-bit arithmetic that can wrap is written out, `int` overflow as
  two's complement.

## Where the code does something else than it seems to

Each item is the code's behaviour, and the named member proves it.

- `m_last_block` advances by sizeof(Block) per unit, so only the lower part of the heap can be cut up; a
  request that reaches the horizon takes the whole tail (`AllocationExactIff`,
  `HalfTheHeapIsAllOfIt`). `NODE_SPLIT_THRESHOLD` is not used.
- The bitfield asserts `i <= SIZE`, one too many (`BoundsCheckExact`, `FreePage`).
- `free_physical_page` cuts its 64-bit page number to 32 bits, so pages 2^44 bytes apart are taken for one
  another (`NamesIff`, `FreeKeepsMatchIff`, `FarFreeHandsOutTwice`).
- `init_kernel_area` maps one page more than an area has. For the heap that is the first allocatable frame,
  which is therefore writable in the kernel half of every process (`HeapOverrunMapsFirstFrame`).
- The dirty flag of a table entry is written to bit 7 and read from bit 6 (`TableEncodeDecode`).
- `map_user_memory` accepts addresses from 0xC0000000 up to `_kernel_start`, and then changes a
  translation of every process, except in the page of Temp: there the store hits the slot's own entry, which
  the guard clears again, and the page taken is lost (`MapUserLeavesOthersIff`, `MapOfTempChangesNothing`).
  It does not clear a new page table (`NewTableKeepsOthersIff`).
- `set_user_mem_no_write` checks no bound, and write-protects a kernel page in every process; in the page of
  Temp it finds the slot's own entry and changes nothing (`NoWriteLeavesOthersIff`).
- A spin lock taken with interrupts off while another task holds it never comes back; in every other
  reachable state a waiting task can still get it (`LockComesIff`, `StuckIsReached`, `HandlerGetsStuck`).
- `allocate_physical_page` tests a bit and sets it later, with no lock around the two: a task that loses the
  processor in between can get the same frame as another one (`FramesDistinctIff`, `PreemptedFindCollides`).
- A serial write whose leftover exceeds the buffer never completes (`WriteCompletes`).
- Characters from 0x80 on get attribute byte 0xFF on the console (`EntryFields`).
- `read_bytes_polling` copies past its sector buffer for some lengths, sizes it with a product that wraps to
  zero for the largest lengths, passes its sector count as u8, and returns the length without the last
  partial sector (`CopyInBoundsIff`, `CountWrapsAt256`).
- `data_from_inode` comes back, for files below 4 GiB, for whole files of at least one block only; shorter
  requests overrun the buffer (`DataFromInode`, `ComesBackBelow4GiB`). For longer files, whose length it
  cuts to 32 bits, some partial reads come back too (`ComesBack` in `Ext2File`). Block numbers are cut to
  32 bits. A block pointer of zero, a hole, reads disk block 0 (`HoleReadsFirstBlock`).
- `read_inode_from_disk` looks for the group descriptors at byte 1024 where blocks are larger than 1 KiB, and reads the
  superblock for them (`DescriptorsFoundIff`). `read_inode_block_from_disk` never reaches the last eleven entries
  of an indirect table (`BlockPointerIs`), and `is_directory` takes block devices and sockets for directories
  (`IsDirectoryIff`). Block numbers wrap at 4 GiB (`BlockNumbersWrap`).
- The directory walk reads one record past each block and never ends on a record of length zero
  (`WalkHangsIff`, `DirectoryHangsIff`).
- `strtoll` differs from section 7.22.1.4 of ISO C11 (`StrtollMeetsStandardIff` has the exact conditions for
  end and value, in every base): newline is no white space to it, 0x is no prefix in base 16, base 36 is
  refused, and it takes the digit equal to the base and letters up to ten past it for digits
  (`AcceptsVersusStandard`, `LettersReadAsDecimal`). Its products are ints and wrap (`WrappedValueExact`,
  `UnsignedRoundTrip`). In base 0 it takes no decimal number (`DecimalsNotTaken`), and any leading zero with two
  more characters for 0x, so that an octal number gets its value only if all its digits but the last are zeros
  (`OctalParse`, `OctalAsHexIff`, `AutodetectionFails`).
- Where `strtoll` finds no digits, it comes back only with an end pointer and with nothing at the head of the
  string that it takes for a blank, a sign or a digit. Otherwise its digit loop runs backwards, to a failed
  assertion or in front of the string: there without an end pointer if nothing stands at the head, and in base 0
  with or without one behind a zero and a letter or digit, as in "0x!" (`ComesBackIff`, `EndPointerMatters`,
  `EmptyRangeIff`).
- Zero printed with padding 0 is the empty string (`PrintedFaithful`).

## Model

| member | source | states |
|---|---|---|
| KernelHeap.Layout.ExtraSubblocks | kernel/kmalloc.cpp:58-65 | the ceiling arithmetic asks for the least number of subblocks with room for `size` bytes, for every size, wrap-around of the subtraction included |
| KernelHeap.FitsIffHoldsBytes | kernel/kmalloc.cpp:68-72 | a block passes the search's test exactly when it is free and its capacity in bytes holds the request |
| KernelHeap.PayloadRoom | kernel/kmalloc.hpp:32-37 | a payload starts at its offset behind a multiple of the block size and has room up to where the next header can start |
| KernelHeap.HorizonInside | kernel/kmalloc.cpp:37-41 | the end that next_block tests is strictly inside the region, and comparing addresses with it is comparing units with headerBytes * units / 32: a unit is reachable exactly when 32 times it is at most that product |
| KernelHeap.Allocator.constructor | kernel/kmalloc.cpp:28-50 | one free block over the whole region |
| KernelHeap.Allocator.NextBlockFollowsChain | kernel/kmalloc.cpp:159-168 | from a header on the chain, next_block reaches exactly its successor, and null exactly at the last block |
| KernelHeap.Allocator.FindFit | kernel/kmalloc.cpp:67-72 | the search loop returns the first block on the chain that fits, or null |
| KernelHeap.Allocator.Allocate | kernel/kmalloc.cpp:58-89 | the headers and the chain change as the allocation step says, the address returned is the data address of the first fitting block, and a panic changes nothing; headers keep describing a chain without adjacent free blocks |
| KernelHeap.Allocator.Split | kernel/kmalloc.cpp:91-111 | the block is cut behind the subblocks asked for, unless it fits exactly or the rest would start behind the horizon |
| KernelHeap.CutDescribes | kernel/kmalloc.cpp:97-110 | the two headers a split writes disturb no other block of the chain |
| KernelHeap.AbsorbDescribes | kernel/kmalloc.cpp:151-155 | adding up two headers merges the blocks although the second header goes stale |
| KernelHeap.FlagUpdateDescribes | kernel/kmalloc.cpp:84-84 | setting one free flag changes one block of the chain |
| KernelHeap.Allocator.FindData | kernel/kmalloc.cpp:114-120 | the block whose data address is the pointer, with its predecessor, or null when there is none |
| KernelHeap.Allocator.Deallocate | kernel/kmalloc.cpp:113-142 | frees and merges the block on the chain, keeping the invariant; fails exactly for an address that is no block's |
| KernelHeap.Allocator.MergeBlocks | kernel/kmalloc.cpp:144-157 | merges a block with its successors for as long as they are free |
| KernelHeap.Allocator.WritePayload | kernel/kmalloc.hpp:32-37 | whatever the owner of a used block writes behind its header, stale headers included, the chain is still described |
| HeapChain.StartsIncrease | kernel/kmalloc.cpp:159-168 | blocks of a tiling follow one another without overlap |
| HeapChain.EveryUnitCovered | kernel/kmalloc.cpp:144-168 | every unit of the region belongs to a block of the chain |
| HeapChain.UnitsConserved | kernel/kmalloc.cpp:91-157 | units of free and of used blocks always add up to the region |
| HeapChain.CutKeepsTiling | kernel/kmalloc.cpp:91-111 | an allocation keeps the chain a gapless tiling with every header at or below the horizon |
| HeapChain.ReleaseKeepsTiling | kernel/kmalloc.cpp:131-157 | so does a free |
| HeapChain.CutKeepsSeparation | kernel/kmalloc.cpp:91-111 | an allocation leaves no two adjacent free blocks |
| HeapChain.ReleaseKeepsSeparation | kernel/kmalloc.cpp:131-157 | a free leaves no two adjacent free blocks |
| HeapChain.ReleaseIsOneMerge | kernel/kmalloc.cpp:131-157 | a free turns the block and its free neighbours into one free block over exactly their units and leaves the rest alone |
| HeapChain.ReleaseUndoesCut | kernel/kmalloc.cpp:91-157 | freeing what was just taken restores starts, sizes and flags, whether or not split cut the block |
| HeapChain.AllFreeIsInitial | kernel/kmalloc.cpp:48-49 | a chain without adjacent free blocks in which nothing is used is the initial one |
| HeapChain.CutKeepsUsed | kernel/kmalloc.cpp:83-84 | the used blocks after an allocation are the old ones and the new one |
| HeapChain.ReleaseKeepsUsed | kernel/kmalloc.cpp:131-157 | the used blocks after a free are the old ones but the freed one |
| HeapChain.ReleaseOfFreeIsNoop | kernel/kmalloc.cpp:131-157 | freeing a block that is free and on the chain changes nothing |
| HeapRuns.RunKeepsHeapSafe | kernel/kmalloc.cpp:58-168 | over every run: tiling, no adjacent free blocks, and live allocations are exactly the used blocks, each large enough |
| HeapRuns.LiveAllocationsDisjoint | kernel/kmalloc.cpp:58-168 | in every reachable state live allocations lie inside the heap, clear of each other and of every header on the chain |
| HeapRuns.EverythingFreedRestoresHeap | kernel/kmalloc.cpp:113-157 | once everything is freed, in whatever order, the heap is the initial one |
| HeapRuns.AllocateIsFirstFit | kernel/kmalloc.cpp:58-89 | panics exactly when no free block holds the bytes, and otherwise returns the lowest one that does |
| HeapRuns.LiveAllocationUndisturbed | kernel/kmalloc.cpp:58-157 | a live address can always be freed, and no other call moves, resizes or releases its block |
| HeapRuns.FreeUndoesAlloc | kernel/kmalloc.cpp:58-157 | allocate followed by deallocate of its result gives back the state |
| HeapRuns.DoubleFreeHarmless | kernel/kmalloc.cpp:113-142 | freeing an address that is not live panics or changes nothing |
| HeapRuns.AllocationExactIff | kernel/kmalloc.cpp:91-111 | an allocation takes exactly the subblocks asked for if and only if the block found has exactly as many or the rest would start, in bytes, no further into the heap than sizeof(Block) for each of its units; otherwise it takes everything to the end of the heap |
| HeapRuns.HalfTheHeapIsAllOfIt | kernel/kmalloc.cpp:41-41 | in a heap of 2048 bytes, 1000 bytes leave nothing for one more |
| Bitfields.BitReplaced | bustd/bitfield.hpp:28-35 | the masked update of a byte changes one bit and no other |
| Bitfields.BitStored | bustd/bitfield.hpp:24-37 | on the whole array it replaces one element of the boolean sequence |
| Bitfields.BoundsCheckExact | bustd/bitfield.hpp:16-16 | the assertion keeps the access in bounds except for index SIZE when SIZE is a multiple of eight |
| Bitfields.Bitfield.At | bustd/bitfield.hpp:15-23 | reads the element of the boolean sequence |
| Bitfields.Bitfield.Replace | bustd/bitfield.hpp:24-37 | replaces one element and returns the old one |
| PhysicalMalloc.LowestFree | kernel/physicalmalloc.cpp:32-39 | the lowest frame not taken, or the number of frames |
| PhysicalMalloc.LowestFreeCounts | kernel/physicalmalloc.cpp:28-41 | the search fails exactly when no frame is free, and taking what it finds leaves one free frame less |
| PhysicalMalloc.PhysicalAllocator.AllocatePage | kernel/physicalmalloc.cpp:28-42 | returns the lowest page not outstanding and adds exactly it; panics exactly when all are outstanding |
| PhysicalMalloc.PhysicalAllocator.FreePage | kernel/physicalmalloc.cpp:44-53 | succeeds exactly when the page's number, cut to 32 bits, is that of an outstanding frame, and clears exactly that one; cut to the number of frames it is read out of bounds |
| PhysicalMalloc.NamesIff | kernel/physicalmalloc.cpp:46-51 | the pages that come to bit f are exactly those a multiple of 2^44 bytes above frame f |
| PhysicalMalloc.NearPageNamesItsFrame | kernel/physicalmalloc.cpp:46-51 | less than 2^44 bytes up, as all 32-bit addresses are, only the frame itself comes to its bit |
| PhysicalMalloc.FreeMakesAvailable | kernel/physicalmalloc.cpp:28-53 | after a free the next allocation returns that page unless a lower one was available |
| PhysicalMalloc.AllocateKeepsMatch | kernel/physicalmalloc.cpp:28-42 | with the bitmap equal to a ledger of pages returned and not given back, an allocation returns a page that nobody holds and keeps them equal |
| PhysicalMalloc.FreeKeepsMatchIff | kernel/physicalmalloc.cpp:44-53 | a free that succeeds keeps bitmap and ledger equal if and only if the page is less than 2^44 bytes up, and then it was held |
| PhysicalMalloc.RunKeepsMatch | kernel/physicalmalloc.cpp:28-53 | over every run with such frees the bitmap is exactly the set of pages returned and not given back |
| PhysicalMalloc.FarFreeHandsOutTwice | kernel/physicalmalloc.cpp:50-52 | freeing the page 2^44 bytes above the first one makes the first available while it is held |
| AllocationRace.RunKeepsOrderly | kernel/physicalmalloc.cpp:28-41 | as long as no task loses the processor between test and set, in every interleaving only the running task has found a bit, that bit is clear, and no frame has been returned twice |
| AllocationRace.PreemptedFindCollides | kernel/physicalmalloc.cpp:32-36 | from every reachable state in which a task has found its bit and loses the processor, a task that is not allocating can bring about that a frame is returned twice |
| AllocationRace.FramesDistinctIff | kernel/physicalmalloc.cpp:28-41 | with two tasks or more, no run returns a frame twice if and only if no task can lose the processor between test and set |
| Paging.DirectoryEntryAsU32 | kernel/x86/paging.cpp:7-21 | the or-ed word has each field at its bit, bit 6 clear |
| Paging.DirectoryBits | kernel/x86/paging.cpp:7-21 | the same for directory entries |
| Paging.DirectoryEntryFromU32 | kernel/x86/paging.cpp:23-63 | the bit loop reads each field from its bit |
| Paging.TableEntryAsU32 | kernel/x86/paging.cpp:65-79 | the or-ed word has each field at its bit, dirty at bit 7 |
| Paging.TableBits | kernel/x86/paging.cpp:65-79 | which bit number holds which field, name by name, as the Intel SDM has them but for the dirty flag |
| Paging.TableEntryFromU32 | kernel/x86/paging.cpp:81-121 | the bit loop reads each field from its bit, dirty from bit 6 |
| Paging.DirectoryDecodeEncode | kernel/x86/paging.cpp:7-63 | decoding what was encoded gives the entry back, exactly when `zero` is clear and the address aligned |
| Paging.DirectoryEncodeDecode | kernel/x86/paging.cpp:7-63 | a word survives decoding and encoding exactly when bit 6 is clear |
| Paging.TableDecodeEncode | kernel/x86/paging.cpp:65-121 | decoding what was encoded gives the entry back, exactly when `dirty` and `zero` are clear and the address aligned |
| Paging.TableEncodeDecode | kernel/x86/paging.cpp:65-121 | a word survives decoding and encoding exactly when bits 6 and 7 are clear |
| Paging.TableReencoded | kernel/x86/paging.cpp:65-121 | otherwise bit 6 has moved to bit 7 and everything else is kept |
| AddressSpace.IndicesSplitAddress | kernel/x86/memory.cpp:24-52 | the two indices are below 1024, give back the page of the address, and the directory index is below 768 exactly for addresses below 0xC0000000 |
| AddressSpace.SamePageIffSameIndices | kernel/x86/memory.cpp:35-52 | two addresses have the same indices exactly when they are on the same page |
| AddressSpace.IndicesOfAddress | kernel/x86/memory.cpp:24-52 | every pair of indices is the pair of the address computed from it |
| AddressSpace.ReadOnlyWordFields | kernel/x86/memory.cpp:332-335 | the rewritten word keeps frame and flags but the write bit, save that bit 6 moves to bit 7 |
| AddressSpace.InTempPageIs | kernel/x86/pagemapguard.cpp:14-18 | the addresses whose indices are the slot's are those of the page of Temp |
| AddressSpace.SlotLeavesNoTrace | kernel/x86/pagemapguard.cpp:8-29 | mapping the slot, one write through it and clearing it is that one write and a clear slot, even when the write hits the slot's own entry |
| Isolation.TakeKeepsConsistent | kernel/process.hpp:20-22 | a page taken for a process was nobody's, is filled with zeros, and leaves the system consistent |
| Isolation.MapAtEffect | kernel/x86/memory.cpp:276-311 | by index pairs, with or without a new page table, exactly one translation changes in all processes |
| IsolationRuns.MapUserChangesOneTranslation | kernel/x86/memory.cpp:271-314 | below 0xC0000000 exactly the page of the address in that process changes, to a writable user mapping of a zeroed frame nobody used; every other walk of every process is unchanged |
| IsolationRuns.NewTableKeepsOthersIff | kernel/x86/memory.cpp:283-293 | a new page table brings no other translation exactly when its frame holds no present word |
| IsolationRuns.MapAtKernelHalfHitsEveryone | kernel/x86/memory.cpp:272-274 | from 0xC0000000 on and outside the page of Temp, the mapping changes the translation in every process |
| IsolationRuns.MapOfTempChangesNothing | kernel/x86/memory.cpp:298-311 | in the page of Temp the mapping leaves memory and all translations as they were and takes a page |
| IsolationRuns.MapUserLeavesOthersIff | kernel/x86/memory.cpp:271-314 | other processes keep all translations if and only if the address is below 0xC0000000 or in the page of Temp |
| IsolationRuns.NoWriteChangesOnePermission | kernel/x86/memory.cpp:316-337 | the page keeps its frame and loses its write permission; no other walk of any process changes |
| IsolationRuns.NoWriteOfTempChangesNothing | kernel/x86/memory.cpp:329-336 | in the page of Temp the slot's own entry is found present and nothing changes |
| IsolationRuns.NoWriteInKernelHalf | kernel/x86/memory.cpp:316-337 | elsewhere from 0xC0000000 on, the page loses its write permission in every process and nothing else changes |
| IsolationRuns.NoWriteLeavesOthersIff | kernel/x86/memory.cpp:316-337 | other processes keep all translations if and only if the address is below 0xC0000000, in the page of Temp, or of a page not writable before |
| IsolationRuns.StoreSeenOnlyByItself | kernel/x86/memory.cpp:271-337 | a user store is read back by its process and changes no other load of any process |
| IsolationRuns.CreateEffect | kernel/process.cpp:8-13 | creation keeps the system consistent and writes only a frame nobody owned; the new process can load nothing |
| IsolationRuns.StepInvisibleToOthers | kernel/x86/memory.cpp:271-337 | one creation, mapping, protection or store changes nothing another process can translate or read |
| IsolationRuns.RunInvisibleToBystander | kernel/x86/memory.cpp:271-337 | over every run a process that takes no step keeps every translation and every word it can read |
| MemoryOutcomes.MapUserSucceedsIff | kernel/x86/memory.cpp:271-314 | a mapping succeeds if and only if the address is below _kernel_start and there are free frames enough, one for the page and one for a missing page table |
| MemoryOutcomes.CreateSucceedsIff | kernel/process.cpp:8-13 | a process can be created exactly when a frame is free |
| MemoryOutcomes.NoWriteSucceedsIff | kernel/x86/memory.cpp:316-337 | protecting succeeds exactly on pages that the processor translates, and in the page of Temp |
| MemoryOutcomes.MappedPageUsable | kernel/x86/memory.cpp:271-314 | at every address of a page just mapped, user code loads zeros and can store |
| MemoryOutcomes.ProtectedPageFaults | kernel/x86/memory.cpp:316-337 | at every address of a page just protected, user code loads what it did before, and every store faults |
| MemoryOutcomes.KernelHalfFaults | kernel/x86/memory.cpp:122-146 | in every consistent state, user code can neither load nor store from 0xC0000000 on |
| EveryRun.StepKeepsLedger | kernel/process.hpp:20-22 | every operation, for every address, keeps the frames handed out in one process each, as its directory or in its owned pages and never both, and loses none |
| EveryRun.ConsistentKeepsApart | kernel/x86/memory.cpp:271-337 | in a consistent system the directories, tables and data frames that translations reach are pairwise distinct, allocated and owned |
| EveryRun.IsolatedOwnership | kernel/process.hpp:20-22 | in an isolated system a page directory is in nobody's owned pages and no frame is in two processes' owned pages |
| EveryRun.EveryRunIsolated | kernel/x86/memory.cpp:271-337 | over every run of whole operations from boot, directories, user tables and data frames of all processes are pairwise distinct and allocated, tables and data frames are in their process's owned pages, directories in nobody's, no frame has two owners or none, and every directory has the kernel half |
| Boot.InitKernelArea | kernel/x86/memory.cpp:54-70 | maps exactly the pages from the start of the area to the page of its end, that one included |
| Boot.ReinitPageDirectory | kernel/x86/memory.cpp:122-146 | the table holds the three areas and the VGA page, the directory the table alone |
| Boot.BootStateIsBooted | kernel/x86/memory.cpp:72-146 | with the pages of the table and the directory that boot fills, overrun pages included, every layout of the sections gives a state the runs above start from |
| Boot.BootDirectoryActive | kernel/x86/memory.cpp:137-145 | the kernel's own directory, which boot makes the active one, has the kernel half and is no allocatable frame |
| Boot.BootTranslations | kernel/x86/memory.cpp:54-146 | for every address, what the kernel's own directory translates it to after boot: nothing outside the four megabytes from 0xC0000000 on, there the VGA page, and each page that meets a section, writable exactly where it meets the writable sections or the heap, never for user code |
| Boot.HeapOverrunMapsFirstFrame | kernel/x86/memory.cpp:99-108 | the page behind the heap is the first allocatable frame, mapped writable in the kernel's own directory and in every other one with the kernel half |
| UserMemory.TempTranslates | kernel/x86/pagemapguard.cpp:8-20 | while the slot holds the entry, the Temp address translates to the guarded page in every directory with the kernel half |
| UserMemory.Kernel.EnterInterruptGuard | kernel/interruptguard.cpp:5-10 | interrupts are off, and the guard remembers whether it switched them off |
| UserMemory.Kernel.LeaveInterruptGuard | kernel/interruptguard.cpp:12-16 | switches them on again exactly when it had switched them off |
| UserMemory.Kernel.TryLock | kernel/spinlock.cpp:8-20 | one round takes the lock exactly when it was free and restores the interrupt flag |
| UserMemory.Kernel.Unlock | kernel/spinlock.cpp:22-26 | clears the lock and restores the interrupt flag |
| UserMemory.Kernel.MapTemp | kernel/x86/pagemapguard.cpp:8-20 | the lock is held and the slot maps the page; nothing else is written |
| UserMemory.Kernel.UnmapTemp | kernel/x86/pagemapguard.cpp:22-29 | whatever the slot holds, it is clear and the lock free afterwards; nothing else is written |
| UserMemory.Kernel.LoadTemp | kernel/x86/memory.cpp:281-282 | a load through the Temp address reads the guarded page |
| UserMemory.Kernel.StoreTemp | kernel/x86/memory.cpp:293-293 | a store through the Temp address writes that word of the guarded page and nothing else, be it the slot's own entry or that of the active directory |
| UserMemory.Kernel.FindPageTable | kernel/x86/memory.cpp:276-296 | the first block finds the page table of the entry or hangs in a new one |
| UserMemory.Kernel.InstallFreshPage | kernel/x86/memory.cpp:298-311 | the second block takes one page, writes one word of whatever table it is given, the kernel's included, and clears the slot |
| UserMemory.Kernel.MapUserMemory | kernel/x86/memory.cpp:271-314 | for every address, running through guards and slot has exactly the effect of the mapping function; for an address below 0xC0000000 or in the page of Temp all other translations stay and the state is safe for the next call; it succeeds if and only if the address is below _kernel_start and there are frames enough |
| UserMemory.Kernel.ClearWrite | kernel/x86/memory.cpp:329-336 | the second block clears one word's write flag, finding what the slot's own entry holds if it is that one |
| UserMemory.Kernel.SetUserMemNoWrite | kernel/x86/memory.cpp:316-337 | for every address exactly the effect of the protection function; for an address below 0xC0000000 or in the page of Temp all other translations stay and the state is safe for the next call; it succeeds exactly on translated pages and in the page of Temp |
| UserMemory.Kernel.CopyKernelDirectory | kernel/task/x86.cpp:77-83 | the word-by-word copy through the slot leaves exactly the kernel's directory in the frame |
| UserMemory.Kernel.NewProcess | kernel/process.cpp:8-13 | the constructor's memory part has exactly the effect of the creation function and leaves a safe state; it succeeds exactly when a frame is free |
| UserMemory.Kernel.SetMapping | kernel/task/x86.cpp:73-75 | making a process the active one keeps the state safe |
| UserMemory.Kernel.Calls | kernel/x86/memory.cpp:271-337 | any sequence of creations, mappings, protections and user stores, carried out by these methods one after the other, is the run of the operations; from a booted state it leaves an isolated one |
| BootedKernel.InitMemoryManagement | kernel/x86/memory.cpp:122-158 | table and directory filled by the boot code, with that directory active, are a safe state of the kernel and a booted one, for every layout of the sections |
| BootedKernel.RunFromBoot | kernel/x86/memory.cpp:122-337 | so from boot on every sequence of calls comes to the state that the operations as functions give, and processes are isolated in it |
| LockProtocol.RunKeepsInvariant | kernel/spinlock.cpp:8-26 | the invariant of locks, flags, guards and slot holds over every interleaving |
| LockProtocol.MutualExclusion | kernel/x86/pagemapguard.cpp:8-29 | in every interleaving at most one task holds the lock, the slot is present only while it is held and maps the frame of the live guard, and unlock's assertion never fails |
| LockProtocol.GuardsRestoreFlag | kernel/interruptguard.cpp:5-16 | nested guards restore the flag they found, in tasks and in handlers that start with it clear, whatever other tasks do in between |
| LockProtocol.StuckForever | kernel/spinlock.cpp:9-15 | a task that spins with interrupts off, under a guard or in a handler, while another holds the lock stays so, whatever happens |
| LockProgress.LockComesIff | kernel/spinlock.cpp:8-20 | in every reachable state a task waiting in lock() has a continuation in which it gets the lock if and only if the running task is not stuck |
| LockProgress.StuckIsReached | kernel/spinlock.cpp:8-20 | two tasks come to a stuck state when the second constructs its page map guard under an interrupt guard |
| LockProgress.HandlerGetsStuck | kernel/spinlock.cpp:8-20 | so does a handler that interrupts a task inside its page map guard and constructs another one, with no interrupt guard around it |
| Memory.MemCpy | libc/string.cpp:66-72 | the target range holds the source bytes, the rest is unchanged |
| RingBuffers.FifoConserves | bustd/ringbuffer.hpp:25-119 | over every run what came out followed by what is inside is what went in, in order, within the capacity |
| RingBuffers.AppendDirect | bustd/ringbuffer.hpp:29-31 | first branch of write: the new bytes extend the contents |
| RingBuffers.AppendSplit | bustd/ringbuffer.hpp:32-37 | second branch: the two pieces extend the contents |
| RingBuffers.AppendWrapped | bustd/ringbuffer.hpp:38-42 | third branch: the wrapped write extends the contents |
| RingBuffers.ReadSplit | bustd/ringbuffer.hpp:56-60 | the two pieces read copies are the oldest bytes |
| RingBuffers.RingBuffer.Write | bustd/ringbuffer.hpp:25-45 | appends the longest prefix that fits and returns its length |
| RingBuffers.RingBuffer.Read | bustd/ringbuffer.hpp:47-62 | copies the oldest bytes and leaves the buffer alone |
| RingBuffers.RingBuffer.Take | bustd/ringbuffer.hpp:64-68 | copies the oldest bytes and removes them |
| RingBuffers.RingBuffer.Push | bustd/ringbuffer.hpp:70-70 | appends one byte, or loses it when the buffer is full |
| RingBuffers.RingBuffer.Pop | bustd/ringbuffer.hpp:72-76 | removes the oldest byte; fails exactly when there is none |
| RingBuffers.RingBuffer.ReadNoCopy | bustd/ringbuffer.hpp:94-109 | the two views together are the contents |
| RingBuffers.RingBuffer.Drop | bustd/ringbuffer.hpp:111-119 | forgets the oldest bytes, at most all |
| RingBuffers.RingBuffer.Clear | bustd/ringbuffer.hpp:123-123 | leaves nothing |
| SerialDriver.AwaitEnds | kernel/x86/tty/serial.cpp:135-144 | the waiting loops end exactly when the room can exist and the transmitter was ready often enough, sixteen bytes at a time |
| SerialDriver.WriteCompletes | kernel/x86/tty/serial.cpp:122-155 | a write completes exactly when all fits, or the leftover fits the buffer and the transmitter is ready ceil(leftover / 16) times |
| SerialDriver.WriteConserves | kernel/x86/tty/serial.cpp:122-155 | one write, waiting and the interrupts before the flag is cleared again included, keeps bytes sent followed by bytes buffered equal to bytes accepted |
| SerialDriver.SerialConserves | kernel/x86/tty/serial.cpp:122-164 | over every run of writes and interrupts, bytes sent followed by bytes buffered are the bytes accepted, in order |
| SerialDriver.CompleteRunsLoseNothing | kernel/x86/tty/serial.cpp:122-164 | when every write completes they are everything submitted |
| SerialDriver.Serial.TransmitStep | kernel/x86/tty/serial.cpp:157-164 | moves the oldest sixteen bytes to the wire when the transmitter is ready |
| SerialDriver.Serial.WaitForRoom | kernel/x86/tty/serial.cpp:135-145 | transmits until there is room or no more answers come |
| SerialDriver.Serial.WriteRest | kernel/x86/tty/serial.cpp:131-153 | the rest is taken whole once there is room, after whatever interrupts still come before the flag is cleared |
| SerialDriver.Serial.Write | kernel/x86/tty/serial.cpp:122-155 | has exactly the effect of the write function, and comes back exactly when all was accepted, with the interrupt flag restored |
| SerialDriver.Serial.Flush | kernel/x86/tty/serial.cpp:166-179 | comes back exactly when the transmitter is ready often enough, with everything sent in order |
| VgaConsole.EntryFields | kernel/x86/tty/vga.cpp:21-23 | the glyph byte is the character; the attribute byte is the colour exactly below 0x80 |
| VgaConsole.PutStaysInWindow | kernel/x86/tty/vga.cpp:53-80 | the cursor stays in the last 25 lines and lines above them do not change |
| VgaConsole.HistoryFrozen | kernel/x86/tty/vga.cpp:53-87 | no later text changes a line that has left the window |
| VgaConsole.PlainTextLayout | kernel/x86/tty/vga.cpp:53-87 | character k of plain text stands k cells behind the cursor in reading order, through line ends and scrolling |
| VgaConsole.BackspaceErases | kernel/x86/tty/vga.cpp:53-80 | a character and a backspace leave the cursor where it was, a blank in its cell, and every other cell as it was |
| VgaConsole.BackspaceBlanks | kernel/x86/tty/vga.cpp:59-64 | behind the start of a line a backspace moves back one cell and blanks it, whatever was there |
| VgaConsole.BackspaceStopsAtLineStart | kernel/x86/tty/vga.cpp:59-64 | at the start of a line it changes nothing |
| VgaConsole.ReturnMovesOnly | kernel/x86/tty/vga.cpp:65-67 | a return goes to the start of the line and changes no cell |
| VgaConsole.NewlineMovesOnly | kernel/x86/tty/vga.cpp:55-58 | a newline goes to the start of the next line, changes no cell, and adds one line of zeros exactly at the bottom |
| VgaConsole.ScrollShown | kernel/x86/tty/vga.cpp:41-51 | a scrolled screen shows the terminal moved to its next line |
| VgaConsole.Vga.Clear | kernel/x86/tty/vga.cpp:25-34 | the screen shows a cleared terminal: every cell a blank in white, the cursor at the top left, the colour light gray |
| VgaConsole.Vga.Scroll | kernel/x86/tty/vga.cpp:41-51 | every line shows what the next one showed, the last one zeros |
| VgaConsole.Vga.PutChar | kernel/x86/tty/vga.cpp:53-80 | the screen stays the last 25 lines of the unbounded terminal, with cursor and every write in bounds |
| VgaConsole.Vga.Write | kernel/x86/tty/vga.cpp:82-87 | and so for every text |
| Pata.ReadSectorsPolling | kernel/x86/pata.cpp:215-249 | with a drive that answers every request: fills the buffer with the sectors asked for when the assertions at its head hold, and fails on them otherwise |
| Pata.ReadableIff | kernel/x86/pata.cpp:215-220 | the assertions in bytes: the sectors asked for lie on the disk and start below 8 GiB; what a count cut to zero has to meet |
| Pata.CopyInBoundsIff | kernel/x86/pata.cpp:257-282 | the copy stays inside the sector buffer exactly for short reads, or when the end does not spill into one more sector, and never for the lengths that make the buffer size wrap to zero |
| Pata.SliceOfSectors | kernel/x86/pata.cpp:257-282 | below 256 sectors the bytes copied are disk[offset .. offset + len], whatever memory held before |
| Pata.CountWrapsAt256 | kernel/x86/pata.cpp:215-215 | from 256 sectors on some memory contents make the copy differ from the disk |
| Pata.ReadBytesPolling | kernel/x86/pata.cpp:257-282 | which of the three outcomes happens, exactly; the bytes copied, for every length, as sectors over whatever memory held; and the flat slice of the disk below 256 sectors |
| Ext2.MountedBlockSize | kernel/filesystem/ext2.cpp:18-18 | the block sizes the read path is proved for are exactly those of shifts up to 6 |
| Ext2.BlockReadsInBounds | kernel/filesystem/ext2.cpp:131-137 | every block read meets the driver's condition, for every index and wrapped offset |
| Ext2.ReadBytes | kernel/x86/pata.cpp:257-282 | reads that meet the condition are flat slices of the disk |
| Ext2.ReadBlockFromDisk | kernel/filesystem/ext2.cpp:131-137 | the bytes of the block on the flat disk |
| Ext2.BlockAtIs | kernel/filesystem/ext2.cpp:99-101 | numbers of blocks below 4 GiB name the blocks of the disk one after the other, readable exactly when the disk has them |
| Ext2.BlockNumbersWrap | kernel/filesystem/ext2.cpp:99-101 | larger numbers wrap around to those |
| Ext2.ReadInodeFromDisk | kernel/filesystem/ext2.cpp:71-97 | the inode record that group descriptor and inode table name, straight from the disk |
| Ext2.DescriptorsFoundIff | kernel/filesystem/ext2.cpp:54-54 | the group descriptors are looked for where ext2 has them exactly on volumes with blocks of 1 KiB |
| Ext2.ReadIndirectBlockFromDisk | kernel/filesystem/ext2.cpp:139-144 | the block behind one entry of the table block |
| Ext2.ReadInodeBlockFromDisk | kernel/filesystem/ext2.cpp:146-165 | block n of a file is the disk block behind the n-th of its pointers, those of the inode followed by the words of its indirect table; from number block_size / 4 + 1 on it panics |
| Ext2.BlockPointerIs | kernel/filesystem/ext2.cpp:139-165 | the same for the pointer; the last eleven entries of the indirect table are never reached |
| Ext2.HoleReadsFirstBlock | kernel/filesystem/ext2.cpp:131-165 | a block pointer of zero gives the first block of the disk, hence the zeros of a hole exactly when that block holds zeros |
| Ext2File.EndBlockIsLast | kernel/filesystem/ext2.cpp:177-177 | for every positive length the rounded-up division less one is the block that holds the last byte |
| Ext2File.BlocksByte | kernel/filesystem/ext2.cpp:167-204 | byte j of the block m behind the first stands at block_size * m + j of the range |
| Ext2File.FileByteOnDisk | kernel/filesystem/ext2.cpp:146-204 | every byte of a range of the file is the byte of the flat disk that the pointer with its block's number, in the list of the file's pointers, names |
| Ext2File.CopyWholeBlocks | kernel/filesystem/ext2.cpp:187-193 | the loop appends block after block; it stops early exactly on a block that cannot be read |
| Ext2File.CopyFinalBlock | kernel/filesystem/ext2.cpp:195-203 | for files of any length: comes back exactly when the length cut to 32 bits lies between the place reached and the end of the buffer and the block can be read, returns that length and completes the buffer up to it |
| Ext2File.DataFromInode | kernel/filesystem/ext2.cpp:167-204 | for every file, offset and size: comes back if and only if the range's blocks can be read, its first part fits, and the length cut to 32 bits lies between the final block's place and the end of the buffer; then the buffer holds, from the offset on and as many as are returned, the bytes of the disk blocks that the list of the file's pointers names; requests that end inside their first block overrun |
| Ext2File.ReadFile | kernel/filesystem/ext2.cpp:167-204 | the same from the inode number on, of 64 bits cut to 32; a number whose cut is 0 panics |
| Ext2File.ComesBackBelow4GiB | kernel/filesystem/ext2.cpp:167-204 | for files below 4 GiB those are exactly the reads of a whole file of at least one block with all its blocks readable |
| Ext2File.WholeFileFromInode | kernel/filesystem/ext2.cpp:167-204 | then the buffer is exactly the concatenation of the disk blocks behind the first ceil(length / block_size) of the file's pointers, cut to the length, which is returned |
| Ext2File.WrappedOffsetPanics | kernel/filesystem/ext2.cpp:174-181 | an offset whose sum with the size wraps in 64 bits passes the assertion and panics on its block |
| Ext2Directory.ReadDirectoryEntryFromDisk | kernel/filesystem/ext2.cpp:108-112 | the record on the flat disk at that position |
| Ext2Directory.WalkOneBlock | kernel/filesystem/ext2.cpp:214-227 | the loop over one block makes the calls of the walk function, in order |
| Ext2Directory.ForEachEntryInDir | kernel/filesystem/ext2.cpp:206-233 | the callbacks made and how the walk ends: finished, panicked or looping for ever |
| Ext2Directory.WalkBlockCallsInUse | kernel/filesystem/ext2.cpp:219-226 | a block whose positive record lengths add up to the block size is walked to its end, with one call per record with nonzero inode, in disk order |
| Ext2Directory.WalkCallsInUse | kernel/filesystem/ext2.cpp:206-233 | the same for all used direct blocks of a directory |
| Ext2Directory.WalkHangsIff | kernel/filesystem/ext2.cpp:219-226 | the walk of a block never ends if and only if records of positive length, one behind the other, lead to one of length zero inside the block |
| Ext2Directory.WalkFinishesIff | kernel/filesystem/ext2.cpp:219-226 | it comes to its end if and only if such records lead to or past the end of the block and one more can be read there; then the calls are for exactly those in use |
| Ext2Directory.DirectoryHangsIff | kernel/filesystem/ext2.cpp:206-233 | the walk of a directory never ends if and only if it does so in some used block and the blocks before it are walked to their ends |
| Ext2Directory.DirectoryFinishesIff | kernel/filesystem/ext2.cpp:206-233 | it comes to its end if and only if the blocks before the first unused one are walked to theirs and, where all twelve are used, there is no indirect block |
| Ext2Layout.InodeReadBack | kernel/filesystem/ext2_structs.hpp:62-84 | a record packed field by field in the struct's order reads back as its mode, lengths and block pointers |
| Ext2Layout.EntryReadBack | kernel/filesystem/ext2_structs.hpp:112-118 | the same for directory entries |
| Ext2Layout.StoredInodeRead | kernel/filesystem/ext2.cpp:71-97 | on a volume with blocks of 1 KiB, an inode packed at its entry of the table that its group's packed descriptor names is the one that is read |
| Ext2Layout.IsDirectoryIff | kernel/filesystem/ext2_structs.hpp:85-87 | of the file types of ext2, directories, block devices and sockets pass the test for a directory |
| Digits.ValueOfAllDigits | libc/stdio.cpp:104-124 | the digits by repeated division denote the number |
| Digits.NumDigitsIsLength | libc/stdio.cpp:104-124 | without leading zeros there are as many as the number has |
| Stdio.Pow | libc/stdio.cpp:36-45 | the power modulo 2^32 |
| Stdio.StringToPadding | libc/stdio.cpp:47-55 | the decimal value of the first characters modulo 2^32; fails exactly when one of them is no digit |
| Stdio.PrintedFaithful | libc/stdio.cpp:57-126 | what is printed denotes the number and has max(digit count, min(width, padding)) digits |
| Stdio.TextShows | libc/stdio.cpp:80-85 | each digit is written as the character that stands for it, in capitals exactly where they are asked for |
| Stdio.ToStringHex | libc/stdio.cpp:57-90 | writes exactly the printed hexadecimal text at the buffer and nothing else, and returns its length; `TextShows` says which characters that are |
| Stdio.ToStringUnsigned | libc/stdio.cpp:92-126 | the same in decimal |
| Stdio.ToStringSigned | libc/stdio.cpp:128-135 | the same with a sign, for every int |
| Stdlib.IntPow | bustd/math.hpp:42-54 | the power wrapped to an int |
| Stdlib.DigitOfIsPlace | libc/stdlib.cpp:141-147 | the value of a letter or digit is its place in the row of digits, in either case |
| Stdlib.BasesRefused | libc/stdlib.cpp:83-88 | negative bases, base 1 and bases from 36 on give 0 and the start of the string |
| StrtollStandard.AcceptsVersusStandard | libc/stdlib.cpp:112-127 | the scan takes every digit of the base, and too much exactly for the digit equal to the base and letters up to ten past it |
| StrtollStandard.StrtollMeetsStandardIff | libc/stdlib.cpp:82-173 | for every string and every base the standard has, 0 and 36 included: the call comes back with the end that section 7.22.1.4 of ISO C11 asks for if and only if the string meets `FindsEnd`, and with end and value, clamped to long long, if and only if it meets `FindsValue` too, that is all products fit an int, or, for octal digits in base 0, all but the last are zeros |
| StrtollStandard.DecimalsNotTaken | libc/stdlib.cpp:101-132 | in base 0 a call on a decimal number, whichever, ends as it does where there is no number at all |
| StrtollStandard.OctalParse | libc/stdlib.cpp:101-110 | in base 0 every other number with a leading zero and two more characters is read as hexadecimal from its third character on, or not at all |
| StrtollStandard.OctalAsHexIff | libc/stdlib.cpp:134-154 | octal digits of any number read as hexadecimal ones, wrap-around included, give their value exactly when all but the last are zeros |
| StrtollStandard.AutodetectionFails | libc/stdlib.cpp:103-110 | in base 0, "12" is not read at all, "0123" as 0x23, and "0x!" makes the code read in front of the string |
| Stdlib.ComesBackIff | libc/stdlib.cpp:82-154 | for every string and base, with and without an end pointer: exactly when the call comes back, fails its assertion, or reads in front of the string |
| Stdlib.EndPointerMatters | libc/stdlib.cpp:129-136 | a call without an end pointer differs from one with it exactly on strings with nothing at their head, and where it comes back the result is the same |
| Stdlib.EmptyRangeIff | libc/stdlib.cpp:134-152 | the backward loop leaves the string exactly when all characters before the start are letters or digits, and otherwise fails its assertion |
| Stdlib.ReadBackwards | libc/stdlib.cpp:134-152 | the digit loop on an empty range is the backward walk that `EmptyRangeIff` is about |
| Stdlib.WrappedValueCongruent | libc/stdlib.cpp:134-154 | the sum of wrapped products is the number modulo 2^32, for any digits |
| Stdlib.WrappedValueExact | libc/stdlib.cpp:134-154 | it never exceeds the number, and is the number exactly when no product of a digit and its power leaves the int range |
| Stdlib.SumDigits | libc/stdlib.cpp:134-154 | the digit loop computes that sum |
| Stdlib.Strtoll | libc/stdlib.cpp:82-173 | value and end, the failed assertion or the stray read, as the parse function says for every string and base |
| PrintParse.UnsignedRoundTrip | libc/stdio.cpp:57-126 | for every number, padding and letter case, strtoll stops at the terminator and gives the number back, except that it is off by 2^32 exactly from 3 * 10^9 on in decimal and from 2^31 on in hexadecimal |
| PrintParse.SignedRoundTrip | libc/stdio.cpp:128-135 | every int printed with padding comes back, stopping at the terminator |
| PrintParse.LettersReadAsDecimal | libc/stdlib.cpp:112-154 | "7a" in base 10 is read whole, as eighty |
| DebugSymbols.AddressRecovered | kernel/debugsymbols.cpp:59-60 | a hexadecimal address of any length is stored modulo 2^32 although strtoll's products wrap |
| DebugSymbols.ParseRecoversSymbols | kernel/debugsymbols.cpp:31-70 | parsing any list of lines "address type name", names with spaces included, gives exactly the list of names and addresses |
| DebugSymbols.PrintedAddressRecovered | kernel/debugsymbols.cpp:59-60 | an address printed in eight digits comes back exactly, for all 32-bit values |
| DebugSymbols.SymbolTable.Load | kernel/debugsymbols.cpp:31-70 | for every text, malformed ones included: it comes back exactly when the text splits into lines that have a symbol and a readable rest, and then the table holds those symbols, in order |
| DebugSymbols.LoadsAnyText | kernel/debugsymbols.cpp:31-70 | the character loop on any text is the reading of it line by line, address up to the first blank, name behind the second |
| DebugSymbols.Passed | kernel/debugsymbols.cpp:80-85 | the lookup passes the symbols at or below pc and stops at the first above |
| DebugSymbols.LookupIsLastAtOrBelow | kernel/debugsymbols.cpp:75-88 | in a sorted table the symbols passed are exactly those at or below pc |
| DebugSymbols.SymbolTable.FunctionNameFromPc | kernel/debugsymbols.cpp:75-88 | the name of the last symbol passed, or the text for none |
| DebugSymbols.FileLookup | kernel/debugsymbols.cpp:31-88 | from the file to the lookup: with sorted addresses the symbol found for pc is that of the last line at or below it |

## Left out

- StrtollMeetsStandardIff: errno, which the code does not set, and sums of more than 2^32 digits, which no string of the 32-bit address space has.
- ReadSectorsPolling: the drive answers every request, so the panic on a drive error and the assertion on the status behind the loop (kernel/x86/pata.cpp:251-252) are not modelled; a sector count of zero, which the drive takes for 256, can reach that assertion with data pending.
- ReadBytesPolling: the same drive errors and final status, which lengths with a sector count divisible by 256 can reach.
- EveryRunIsolated: operations on memory are single steps; a creation or mapping preempted inside allocate_physical_page (kernel/physicalmalloc.cpp:32-34), which kernel/process.cpp:12 calls outside every guard, can take a frame that another process gets too. `FramesDistinctIff` says exactly when, for the allocator by itself.
- Calls: the same; the calls are made one after the other, each by a task that finds the lock free.
- RunFromBoot: the same.
- MapUserMemory: after a mapping between 0xC0000000 and _kernel_start outside the page of Temp the exact effect is proved, but not that later calls are safe; other processes have then been changed.
- SetUserMemNoWrite: the same for a writable kernel page.
- ReinitPageDirectory: kernel sections that reach beyond 4 MiB, for which init_kernel_area would write behind its one table, are not covered; nor is a first section below 1 MiB, which the linker script rules out.
- SerialDriver.Serial.Write: a write is not interrupted by another write; interrupts that transmit are covered.
- Bitfield: padding bits behind the last index are part of the boolean sequence.
- A page map guard nested inside another one in the same task spins on its own lock for ever; only one at a time is modelled.
- The translation cache: the page walk reads memory, so the refresh after each change of the slot has no effect in the model.
- LoadTemp: the processor sets the accessed bit in entry 768 of the active directory and in the slot's entry; the model sets accessed and dirty bits on stores in user mode only.
- StoreTemp: likewise the accessed bit in entry 768 of the active directory and accessed and dirty bits in the slot's entry. No walk or later operation depends on these bits; but where EveryRunIsolated says that a process directory's kernel half equals the kernel's, on the machine it does up to bit 5.
- Port I/O, drive identification and error status, the cursor registers, interrupt controllers, boot code and the linker script are hardware; the disk is a byte sequence and interrupts are steps.
- Scheduler::reschedule gives no guarantee that could be proved: it always comes back to the current process.
- map_kernel_memory has no callers and starts one run too early.
- Name comparison and path lookup in ext2: strncmp does not advance its pointers and the walk ignores Break, so only the walk is modelled.
- ELF loading, double and triple indirect blocks (not implemented in the source), writing to disk.
- bu::List, Vector::remove_if and overlapping memmove do not keep the contract one would state; Optional, OwnedPtr, StringView and the ctype tables would add easy members only.
- sprintf's format parsing over varargs, panic and backtrace printing, and the system call stubs.
- KernelOutputDevice loses bytes when an interrupt appends between read_nocopy and clear, so nothing is conserved there.
