/** Memory isolation over every run from boot: who owns which frame, and what translations reach. */
module EveryRun {
  import opened Wrappers
  import opened Bits
  import opened Paging
  import opened PhysicalMalloc
  import opened AddressSpace
  import opened Isolation
  import opened IsolationRuns

  /** The machine after boot: no process, every allocatable frame zero. */
  ghost predicate Booted(env: Env, m: Machine) {
    && env.Valid() && m.processes == [] && m.taken == {} && KernelOK(env, m.phys)
    && forall a :: env.IsFrame(a) ==>
         a in m.phys && |m.phys[a]| == ENTRIES && forall i :: 0 <= i < ENTRIES ==> m.phys[a][i] == 0
  }

  lemma BootedIsConsistent(env: Env, m: Machine)
    requires Booted(env, m)
    ensures Consistent(env, m, map[]) && LedgerOK(env, m)
  {
  }

  lemma {:induction false} RunKeepsConsistent(env: Env, m: Machine, roles: Roles, ops: seq<MemoryOp>)
    returns (roles': Roles)
    requires Consistent(env, m, roles) && RunOps(env, m, ops).Some?
    requires forall k :: 0 <= k < |ops| ==> IsPrivate(ops[k])
    ensures Consistent(env, RunOps(env, m, ops).value, roles')
    decreases |ops|
  {
    roles' := roles;
    if ops != [] {
      roles' := StepKeepsConsistent(env, m, roles, ops[0]);
      roles' := RunKeepsConsistent(env, StepOp(env, m, ops[0]).value, roles', ops[1..]);
    }
  }

  // ---------- Who owns which frame ----------

  ghost predicate Allocated(env: Env, m: Machine, a: nat) {
    exists f :: f in m.taken && f < FRAME_COUNT && a == FrameAddress(env.start, f)
  }

  /** Process `p` has frame `a`, as its page directory or in its owned pages. */
  ghost predicate Has(m: Machine, p: nat, a: nat)
    requires p < |m.processes|
  {
    m.processes[p].mmuBase == a || a in m.processes[p].ownedPages
  }

  /** Every frame handed out is one process's page directory or in one process's owned pages, and never
    both. */
  ghost predicate LedgerOK(env: Env, m: Machine) {
    && (forall p, a :: 0 <= p < |m.processes| && Has(m, p, a) ==> Allocated(env, m, a))
    && (forall p, q, a :: 0 <= p < |m.processes| && 0 <= q < |m.processes| && Has(m, p, a) && Has(m, q, a) ==> p == q)
    && (forall p :: 0 <= p < |m.processes| ==> m.processes[p].mmuBase !in m.processes[p].ownedPages)
    && (forall f :: f in m.taken ==> exists p :: 0 <= p < |m.processes| && Has(m, p, FrameAddress(env.start, f)))
  }

  lemma LedgerIgnoresMemory(env: Env, m: Machine, phys: Phys)
    requires LedgerOK(env, m)
    ensures LedgerOK(env, m.(phys := phys))
  {
    var m' := m.(phys := phys);
    forall p, a | 0 <= p < |m.processes| && Has(m', p, a) ensures Allocated(env, m', a) {
      assert Has(m, p, a);
    }
    forall p, q, a | 0 <= p < |m.processes| && 0 <= q < |m.processes| && Has(m', p, a) && Has(m', q, a) ensures p == q {
      assert Has(m, p, a) && Has(m, q, a);
    }
    forall f | f in m'.taken ensures exists p :: 0 <= p < |m'.processes| && Has(m', p, FrameAddress(env.start, f)) {
      var p :| 0 <= p < |m.processes| && Has(m, p, FrameAddress(env.start, f));
      assert Has(m', p, FrameAddress(env.start, f));
    }
  }

  /** The lowest free frame is nobody's. */
  lemma FreshIsNobodys(env: Env, m: Machine, p: nat)
    requires env.Valid() && LedgerOK(env, m) && p < |m.processes| && LowestFree(m.taken) < FRAME_COUNT
    ensures !Has(m, p, FrameAddress(env.start, LowestFree(m.taken)))
  {
    assert !Allocated(env, m, FrameAddress(env.start, LowestFree(m.taken)));
  }

  /** Recording a fresh frame with process `p`, one of the old ones or the new one. */
  lemma LedgerTakes(env: Env, m: Machine, m': Machine, p: nat)
    requires env.Valid() && LedgerOK(env, m) && LowestFree(m.taken) < FRAME_COUNT
    requires var a := FrameAddress(env.start, LowestFree(m.taken));
             && m'.taken == m.taken + {LowestFree(m.taken)}
             && |m.processes| <= |m'.processes| && p < |m'.processes|
             && (forall q, b :: 0 <= q < |m'.processes| ==>
                   (Has(m', q, b) <==> (q < |m.processes| && Has(m, q, b)) || (q == p && b == a)))
             && (forall q :: 0 <= q < |m'.processes| ==> m'.processes[q].mmuBase !in m'.processes[q].ownedPages)
    ensures LedgerOK(env, m')
  {
    var f := LowestFree(m.taken);
    var a := FrameAddress(env.start, f);
    forall q | 0 <= q < |m.processes| ensures !Has(m, q, a) {
      FreshIsNobodys(env, m, q);
    }
    forall q, b | 0 <= q < |m'.processes| && Has(m', q, b) ensures Allocated(env, m', b) {
      if q < |m.processes| && Has(m, q, b) {
        var g :| g in m.taken && g < FRAME_COUNT && b == FrameAddress(env.start, g);
        assert g in m'.taken;
      } else {
        assert f in m'.taken;
      }
    }
    forall g | g in m'.taken ensures exists q :: 0 <= q < |m'.processes| && Has(m', q, FrameAddress(env.start, g)) {
      if g == f {
        assert Has(m', p, a);
      } else {
        var q :| 0 <= q < |m.processes| && Has(m, q, FrameAddress(env.start, g));
        assert Has(m', q, FrameAddress(env.start, g));
      }
    }
  }

  lemma TakeKeepsLedger(env: Env, m: Machine, p: nat)
    requires env.Valid() && LedgerOK(env, m) && p < |m.processes| && TakePage(env, m, p).Some?
    ensures LedgerOK(env, TakePage(env, m, p).value.0)
  {
    var m' := TakePage(env, m, p).value.0;
    FreshIsNobodys(env, m, p);
    LedgerTakes(env, m, m', p);
  }

  lemma CreateKeepsLedger(env: Env, m: Machine)
    requires env.Valid() && LedgerOK(env, m) && CreateProcess(env, m).Some?
    ensures LedgerOK(env, CreateProcess(env, m).value)
  {
    LedgerTakes(env, m, CreateProcess(env, m).value, |m.processes|);
  }

  lemma InstallKeepsLedger(env: Env, m: Machine, p: nat, table: nat, ti: nat)
    requires env.Valid() && LedgerOK(env, m) && p < |m.processes| && InstallPage(env, m, p, table, ti).Some?
    ensures LedgerOK(env, InstallPage(env, m, p, table, ti).value)
  {
    TakeKeepsLedger(env, m, p);
    LedgerIgnoresMemory(env, TakePage(env, m, p).value.0, InstallPage(env, m, p, table, ti).value.phys);
  }

  lemma MapKeepsLedger(env: Env, m: Machine, p: nat, di: nat, ti: nat)
    requires env.Valid() && LedgerOK(env, m) && p < |m.processes| && MapAt(env, m, p, di, ti).Some?
    ensures LedgerOK(env, MapAt(env, m, p, di, ti).value)
  {
    var dir := m.processes[p].mmuBase;
    var pde := Word(m.phys, dir, di);
    if Bit(pde, 0) {
      InstallKeepsLedger(env, m, p, PageOf(pde), ti);
    } else {
      TakeKeepsLedger(env, m, p);
      var (m', t) := TakePage(env, m, p).value;
      var phys := SetWord(m'.phys, dir, di, UserDirectoryWord(t));
      LedgerIgnoresMemory(env, m', phys);
      InstallKeepsLedger(env, m'.(phys := phys), p, t, ti);
    }
  }

  /** Every operation keeps the ledger, for every address, in the kernel half too. */
  lemma StepKeepsLedger(env: Env, m: Machine, op: MemoryOp)
    requires env.Valid() && LedgerOK(env, m) && StepOp(env, m, op).Some?
    ensures LedgerOK(env, StepOp(env, m, op).value)
  {
    match op
    case Create => CreateKeepsLedger(env, m);
    case Map(p, va) => MapKeepsLedger(env, m, p, DirIndex(va), TableIndex(va));
    case Protect(p, va) => LedgerIgnoresMemory(env, m, NoWrite(env, m, p, va).value.phys);
    case Store(p, va, value) => LedgerIgnoresMemory(env, m, UserStore(m, p, va, value).value.phys);
  }

  lemma {:induction false} RunKeepsLedger(env: Env, m: Machine, ops: seq<MemoryOp>)
    requires env.Valid() && LedgerOK(env, m) && RunOps(env, m, ops).Some?
    ensures LedgerOK(env, RunOps(env, m, ops).value)
    decreases |ops|
  {
    if ops != [] {
      StepKeepsLedger(env, m, ops[0]);
      RunKeepsLedger(env, StepOp(env, m, ops[0]).value, ops[1..]);
    }
  }

  // ---------- What translations reach ----------

  /** What translations reach, said without roles. */
  ghost predicate TranslationsApart(env: Env, m: Machine) {
    // page directories are allocated frames, pairwise distinct, with the kernel half
    && (forall p :: 0 <= p < |m.processes| ==>
          && Allocated(env, m, m.processes[p].mmuBase)
          && forall di :: KERNEL_INDEX <= di < ENTRIES ==>
               Word(m.phys, m.processes[p].mmuBase, di) == env.KernelWord(di))
    && (forall p, q :: 0 <= p < q < |m.processes| ==> m.processes[p].mmuBase != m.processes[q].mmuBase)
    // frames reached by user translations are allocated, owned by their process, and hold no tables
    && (forall p, di, ti :: 0 <= p < |m.processes| && 0 <= di < KERNEL_INDEX && 0 <= ti < ENTRIES ==>
          ReachedFrameOwned(env, m, p, di, ti))
    // and no two translations share one
    && (forall p, di, ti, q, dj, tj ::
          0 <= p < |m.processes| && 0 <= di < KERNEL_INDEX && 0 <= ti < ENTRIES &&
          0 <= q < |m.processes| && 0 <= dj < KERNEL_INDEX && 0 <= tj < ENTRIES ==>
            FramesApart(m, p, di, ti, q, dj, tj))
  }

  ghost function TableAt(m: Machine, p: nat, di: nat): Option<nat>
    requires p < |m.processes|
  {
    var pde := Word(m.phys, m.processes[p].mmuBase, di);
    if Bit(pde, 0) then Some(PageOf(pde)) else None
  }

  ghost predicate ReachedFrameOwned(env: Env, m: Machine, p: nat, di: nat, ti: nat)
    requires p < |m.processes|
  {
    && (TableAt(m, p, di).Some? ==>
          var t := TableAt(m, p, di).value;
          Allocated(env, m, t) && t in m.processes[p].ownedPages)
    && var w := WalkAt(m.phys, m.processes[p].mmuBase, di, ti);
       w.Some? ==> w.value.user && Allocated(env, m, w.value.frame) && w.value.frame in m.processes[p].ownedPages
  }

  ghost predicate FramesApart(m: Machine, p: nat, di: nat, ti: nat, q: nat, dj: nat, tj: nat)
    requires p < |m.processes| && q < |m.processes|
  {
    var w, v := WalkAt(m.phys, m.processes[p].mmuBase, di, ti), WalkAt(m.phys, m.processes[q].mmuBase, dj, tj);
    && (w.Some? && v.Some? && (p != q || di != dj || ti != tj) ==> w.value.frame != v.value.frame)
    && (w.Some? ==> w.value.frame != m.processes[q].mmuBase && TableAt(m, q, dj) != Some(w.value.frame))
    && (TableAt(m, p, di).Some? ==>
          && TableAt(m, p, di) != Some(m.processes[q].mmuBase)
          && ((p != q || di != dj) ==> TableAt(m, p, di) != TableAt(m, q, dj)))
  }

  lemma RoleMeansAllocated(env: Env, m: Machine, roles: Roles, a: nat)
    requires Consistent(env, m, roles) && a in roles
    ensures Allocated(env, m, a)
  {
    assert env.IsFrame(a);
    var f := (a - env.start) / PAGE_SIZE;
    assert a == FrameAddress(env.start, f) && f in m.taken;
  }

  lemma RolesOfReached(env: Env, m: Machine, roles: Roles, p: nat, di: nat, ti: nat)
    requires Consistent(env, m, roles) && p < |m.processes| && di < KERNEL_INDEX && ti < ENTRIES
    ensures var dir := m.processes[p].mmuBase;
            var w := WalkAt(m.phys, dir, di, ti);
            && dir in roles && roles[dir] == Directory(p)
            && (TableAt(m, p, di).Some? ==>
                  TableAt(m, p, di).value in roles && roles[TableAt(m, p, di).value] == UserTable(p, di))
            && (w.Some? ==> w.value.user && w.value.frame in roles && roles[w.value.frame] == Data(p, di, ti))
  {
    var dir := m.processes[p].mmuBase;
    assert ProcessOK(env, m.phys, roles, p, dir);
    assert TableOK(m.phys, roles, p, dir, di);
    if TableAt(m, p, di).Some? {
      assert PageOK(m.phys, roles, p, di, TableAt(m, p, di).value, ti);
    }
  }

  lemma ConsistentKeepsApart(env: Env, m: Machine, roles: Roles)
    requires Consistent(env, m, roles)
    ensures TranslationsApart(env, m)
  {
    forall p | 0 <= p < |m.processes|
      ensures Allocated(env, m, m.processes[p].mmuBase)
      ensures forall di :: KERNEL_INDEX <= di < ENTRIES ==>
                Word(m.phys, m.processes[p].mmuBase, di) == env.KernelWord(di)
    {
      assert ProcessOK(env, m.phys, roles, p, m.processes[p].mmuBase);
      RoleMeansAllocated(env, m, roles, m.processes[p].mmuBase);
    }
    forall p, q | 0 <= p < q < |m.processes| ensures m.processes[p].mmuBase != m.processes[q].mmuBase {
      RolesOfReached(env, m, roles, p, 0, 0);
      RolesOfReached(env, m, roles, q, 0, 0);
    }
    forall p, di, ti | 0 <= p < |m.processes| && 0 <= di < KERNEL_INDEX && 0 <= ti < ENTRIES
      ensures ReachedFrameOwned(env, m, p, di, ti)
    {
      ReachedIsOwned(env, m, roles, p, di, ti);
    }
    forall p, di, ti, q, dj, tj |
      0 <= p < |m.processes| && 0 <= di < KERNEL_INDEX && 0 <= ti < ENTRIES &&
      0 <= q < |m.processes| && 0 <= dj < KERNEL_INDEX && 0 <= tj < ENTRIES
      ensures FramesApart(m, p, di, ti, q, dj, tj)
    {
      RolesOfReached(env, m, roles, p, di, ti);
      RolesOfReached(env, m, roles, q, dj, tj);
    }
  }

  lemma ReachedIsOwned(env: Env, m: Machine, roles: Roles, p: nat, di: nat, ti: nat)
    requires Consistent(env, m, roles) && p < |m.processes| && di < KERNEL_INDEX && ti < ENTRIES
    ensures ReachedFrameOwned(env, m, p, di, ti)
  {
    RolesOfReached(env, m, roles, p, di, ti);
    var w := WalkAt(m.phys, m.processes[p].mmuBase, di, ti);
    if TableAt(m, p, di).Some? {
      RoleMeansAllocated(env, m, roles, TableAt(m, p, di).value);
    }
    if w.Some? {
      RoleMeansAllocated(env, m, roles, w.value.frame);
    }
  }

  // ---------- Isolation ----------

  /** The pages reached through translations are apart, and the frames are apart by owner: a directory is
    in nobody's owned pages, no frame is owned twice, and no frame handed out is lost. */
  ghost predicate Isolated(env: Env, m: Machine) {
    && TranslationsApart(env, m)
    && LedgerOK(env, m)
  }

  lemma OwnedIsHad(m: Machine, q: nat, a: nat)
    requires q < |m.processes|
    ensures a in m.processes[q].ownedPages ==> Has(m, q, a)
  {
  }

  lemma IsolatedOwnership(env: Env, m: Machine, p: nat, q: nat, a: nat)
    requires Isolated(env, m) && p < |m.processes| && q < |m.processes|
    ensures m.processes[p].mmuBase !in m.processes[q].ownedPages
    ensures a in m.processes[p].ownedPages && a in m.processes[q].ownedPages ==> p == q
  {
    assert Has(m, p, m.processes[p].mmuBase);
    OwnedIsHad(m, q, m.processes[p].mmuBase);
    OwnedIsHad(m, p, a);
    OwnedIsHad(m, q, a);
  }

  /** Memory isolation over every run from boot. */
  lemma EveryRunIsolated(env: Env, m: Machine, ops: seq<MemoryOp>)
    requires Booted(env, m) && RunOps(env, m, ops).Some?
    requires forall k :: 0 <= k < |ops| ==> IsPrivate(ops[k])
    ensures Isolated(env, RunOps(env, m, ops).value)
  {
    BootedIsConsistent(env, m);
    var roles := RunKeepsConsistent(env, m, map[], ops);
    ConsistentKeepsApart(env, RunOps(env, m, ops).value, roles);
    RunKeepsLedger(env, m, ops);
  }
}
