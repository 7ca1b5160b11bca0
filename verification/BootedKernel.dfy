/** init_memory_management of kernel/x86/memory.cpp: the kernel built on the state that boot leaves. */
module BootedKernel {
  import opened Wrappers
  import opened Bits
  import opened Paging
  import opened PhysicalMalloc
  import opened AddressSpace
  import opened Isolation
  import opened IsolationRuns
  import opened EveryRun
  import opened Boot
  import opened UserMemory

  /** The tables are filled and the kernel's own directory becomes the active one; nothing is allocated. */
  method InitMemoryManagement(image: Image, tableAddress: u32, dirAddress: u32) returns (kernel: Kernel)
    requires Placed(image, tableAddress, dirAddress)
    ensures fresh(kernel) && fresh(kernel.allocator.allocations) && fresh(kernel.allocator.allocations.data)
    ensures kernel.Safe() && kernel.env == BootEnv(image, tableAddress) && kernel.cr3 == dirAddress
    ensures kernel.View() == BootMachine(image, tableAddress, dirAddress)
    ensures Booted(kernel.env, kernel.View())
  {
    var table, directory := new nat[ENTRIES](_ => 0), new nat[ENTRIES](_ => 0);
    ReinitPageDirectory(table, directory, tableAddress, image);
    var env := BootEnv(image, tableAddress);
    var phys := BootMemory(env, table[..], tableAddress, directory[..], dirAddress);
    var allocator := new PhysicalAllocator(image.heapEnd);
    BootFacts(image, tableAddress, dirAddress);
    kernel := new Kernel(env, allocator, phys, dirAddress);
  }

  lemma BootFacts(image: Image, tableAddress: u32, dirAddress: u32)
    requires Placed(image, tableAddress, dirAddress)
    ensures var env, m := BootEnv(image, tableAddress), BootMachine(image, tableAddress, dirAddress);
            && Booted(env, m) && env.KernelTable() == tableAddress && !env.IsFrame(dirAddress)
            && Word(m.phys, dirAddress, KERNEL_INDEX) == env.KernelWord(KERNEL_INDEX)
  {
    BootStateIsBooted(image, tableAddress, dirAddress);
    BootEnvValid(image, tableAddress);
    BootDirectoryActive(image, tableAddress, dirAddress);
  }

  /** From boot on: whatever the guarded code is asked to do, one call after the other, the state it comes to
    is that of the operations as functions, and processes are isolated in it. */
  method RunFromBoot(image: Image, tableAddress: u32, dirAddress: u32, ops: seq<MemoryOp>)
    returns (ok: bool, kernel: Kernel)
    requires Placed(image, tableAddress, dirAddress) && forall k :: 0 <= k < |ops| ==> IsPrivate(ops[k])
    ensures fresh(kernel)
    ensures match RunOps(BootEnv(image, tableAddress), BootMachine(image, tableAddress, dirAddress), ops)
            case None => !ok
            case Some(m) =>
              && ok && kernel.Safe() && kernel.View() == m
              && kernel.env == BootEnv(image, tableAddress) && Isolated(kernel.env, m)
  {
    kernel := InitMemoryManagement(image, tableAddress, dirAddress);
    ok := kernel.Calls(ops);
  }
}
