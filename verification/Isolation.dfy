/** Memory isolation between processes: the invariant behind kernel/x86/memory.cpp, kept by every
  operation, and what it says about translations and memory contents. */
module Isolation {
  import opened Wrappers
  import opened Bits
  import opened Paging
  import opened PhysicalMalloc
  import opened AddressSpace

  /** What an allocated frame is used for. Since a frame has one role, frames that play different
    roles are different. `Retired` frames are owned but no longer (or not yet) reached. */
  datatype Role =
    | Directory(p: nat)
    | UserTable(p: nat, di: nat)
    | Data(p: nat, di: nat, ti: nat)
    | Retired(p: nat)

  type Roles = map<nat, Role>

  ghost predicate FramesOK(env: Env, m: Machine, roles: Roles) {
    && (forall a :: env.IsFrame(a) ==> a in m.phys && |m.phys[a]| == ENTRIES)
    && (forall a, i {:trigger m.phys[a][i]} :: env.IsFrame(a) && a !in roles && 0 <= i < ENTRIES ==>
          a in m.phys && |m.phys[a]| == ENTRIES && m.phys[a][i] == 0)
    && (forall a :: a in roles ==> env.IsFrame(a))
    && (forall f :: f in m.taken ==> f < FRAME_COUNT)
    && (forall f: nat :: f < FRAME_COUNT ==> (FrameAddress(env.start, f) in roles <==> f in m.taken))
  }

  ghost predicate OwnersOK(m: Machine, roles: Roles) {
    forall a :: a in roles ==>
      && roles[a].p < |m.processes|
      && (roles[a].Directory? ==> m.processes[roles[a].p].mmuBase == a)
      && (!roles[a].Directory? ==> a in m.processes[roles[a].p].ownedPages)
  }

  ghost predicate PageOK(phys: Phys, roles: Roles, p: nat, di: nat, table: nat, ti: nat) {
    var pte := Word(phys, table, ti);
    Bit(pte, 0) ==> Bit(pte, 2) && PageOf(pte) in roles && roles[PageOf(pte)] == Data(p, di, ti)
  }

  ghost predicate TableOK(phys: Phys, roles: Roles, p: nat, dir: nat, di: nat) {
    var pde := Word(phys, dir, di);
    Bit(pde, 0) ==>
      && Bit(pde, 1) && Bit(pde, 2)
      && PageOf(pde) in roles && roles[PageOf(pde)] == UserTable(p, di)
      && forall ti :: 0 <= ti < ENTRIES ==> PageOK(phys, roles, p, di, PageOf(pde), ti)
  }

  ghost predicate ProcessOK(env: Env, phys: Phys, roles: Roles, p: nat, dir: nat) {
    && dir in roles && roles[dir] == Directory(p)
    && (forall di :: KERNEL_INDEX <= di < ENTRIES ==> Word(phys, dir, di) == env.KernelWord(di))
    && (forall di :: 0 <= di < KERNEL_INDEX ==> TableOK(phys, roles, p, dir, di))
  }

  /** An entry for an address below _kernel_start names no allocatable frame. Above, one does: boot maps
    one page more than the heap has, and that page is the first allocatable frame. */
  ghost predicate KernelEntryOK(env: Env, phys: Phys, di: nat, ti: nat) {
    var pte := Word(phys, PageOf(env.KernelWord(di)), ti);
    VirtualAddressFromIndices(di, ti) < env.kernelStart && Bit(env.KernelWord(di), 0) && Bit(pte, 0) ==>
      !env.IsFrame(PageOf(pte))
  }

  /** The shared kernel page table is there, with the Temp slot clear. */
  ghost predicate KernelOK(env: Env, phys: Phys) {
    var shared := env.KernelTable();
    && shared in phys && |phys[shared]| == ENTRIES && Word(phys, shared, TEMP_INDEX) == 0
    && forall di, ti :: KERNEL_INDEX <= di < ENTRIES && 0 <= ti < ENTRIES ==> KernelEntryOK(env, phys, di, ti)
  }

  ghost predicate Consistent(env: Env, m: Machine, roles: Roles) {
    && env.Valid()
    && FramesOK(env, m, roles)
    && OwnersOK(m, roles)
    && KernelOK(env, m.phys)
    && forall p :: 0 <= p < |m.processes| ==> ProcessOK(env, m.phys, roles, p, m.processes[p].mmuBase)
  }

  // ---------- Frame rules for words ----------

  lemma WordAfterSet(phys: Phys, page: nat, i: nat, w: nat, page': nat, i': nat)
    ensures (page' != page || i' != i) ==> Word(SetWord(phys, page, i, w), page', i') == Word(phys, page', i')
    ensures page in phys && i < |phys[page]| ==> Word(SetWord(phys, page, i, w), page, i) == w
  {
  }

  lemma FreshFrame(env: Env, m: Machine, roles: Roles)
    requires Consistent(env, m, roles)
    requires LowestFree(m.taken) < FRAME_COUNT
    ensures var a := FrameAddress(env.start, LowestFree(m.taken));
            && env.IsFrame(a) && a !in roles && a < U32
            && (forall f: nat :: f < FRAME_COUNT && FrameAddress(env.start, f) == a ==> f == LowestFree(m.taken))
  {
  }

  // ---------- Primitive steps ----------

  /** Taking a page for process `p`: nobody reaches it yet. */
  lemma TakeKeepsConsistent(env: Env, m: Machine, roles: Roles, p: nat)
    requires Consistent(env, m, roles) && p < |m.processes|
    requires TakePage(env, m, p).Some?
    ensures var (m', a) := TakePage(env, m, p).value;
            && Consistent(env, m', roles[a := Retired(p)])
            && a !in roles && env.IsFrame(a) && m'.phys == m.phys
            && forall i :: 0 <= i < ENTRIES ==> Word(m.phys, a, i) == 0
  {
    var (m', a) := TakePage(env, m, p).value;
    FreshFrame(env, m, roles);
    var roles' := roles[a := Retired(p)];
    forall q | 0 <= q < |m'.processes| ensures ProcessOK(env, m'.phys, roles', q, m'.processes[q].mmuBase) {
      assert ProcessOK(env, m.phys, roles, q, m.processes[q].mmuBase);
      ProcessKeptByNewRole(env, m.phys, roles, q, m.processes[q].mmuBase, a, Retired(p));
    }
  }

  lemma ProcessKeptByNewRole(env: Env, phys: Phys, roles: Roles, q: nat, dir: nat, a: nat, r: Role)
    requires ProcessOK(env, phys, roles, q, dir)
    requires a !in roles
    ensures ProcessOK(env, phys, roles[a := r], q, dir)
  {
    var roles' := roles[a := r];
    forall di | 0 <= di < KERNEL_INDEX ensures TableOK(phys, roles', q, dir, di) {
      assert TableOK(phys, roles, q, dir, di);
      var pde := Word(phys, dir, di);
      if Bit(pde, 0) {
        forall ti | 0 <= ti < ENTRIES ensures PageOK(phys, roles', q, di, PageOf(pde), ti) {
          assert PageOK(phys, roles, q, di, PageOf(pde), ti);
        }
      }
    }
  }

  /** A process is unaffected when a word changes outside its directory and tables, and a frame it
    does not reach changes role. */
  lemma ProcessKeptByForeignWrite(env: Env, phys: Phys, roles: Roles, q: nat, dir: nat, page: nat, i: nat, w: nat)
    requires ProcessOK(env, phys, roles, q, dir)
    requires page in roles ==> roles[page] != Directory(q) && forall di :: roles[page] != UserTable(q, di)
    ensures ProcessOK(env, SetWord(phys, page, i, w), roles, q, dir)
  {
    var phys' := SetWord(phys, page, i, w);
    assert page != dir;
    forall di | 0 <= di < KERNEL_INDEX ensures TableOK(phys', roles, q, dir, di) {
      assert TableOK(phys, roles, q, dir, di);
      var pde := Word(phys, dir, di);
      if Bit(pde, 0) {
        forall ti | 0 <= ti < ENTRIES ensures PageOK(phys', roles, q, di, PageOf(pde), ti) {
          assert PageOK(phys, roles, q, di, PageOf(pde), ti);
        }
      }
    }
  }

  /** A retired frame of zeros becomes the page table behind an entry that was not present. */
  lemma SetDirectoryEntryKeepsConsistent(env: Env, m: Machine, roles: Roles, p: nat, di: nat, w: nat)
    requires Consistent(env, m, roles) && p < |m.processes| && di < KERNEL_INDEX
    requires !Bit(Word(m.phys, m.processes[p].mmuBase, di), 0)
    requires Bit(w, 0) && Bit(w, 1) && Bit(w, 2) && PageOf(w) in roles && roles[PageOf(w)] == Retired(p)
    requires forall i :: 0 <= i < ENTRIES ==> Word(m.phys, PageOf(w), i) == 0
    ensures Consistent(env, m.(phys := SetWord(m.phys, m.processes[p].mmuBase, di, w)),
                       roles[PageOf(w) := UserTable(p, di)])
  {
    var dir, t := m.processes[p].mmuBase, PageOf(w);
    var roles' := roles[t := UserTable(p, di)];
    var phys' := SetWord(m.phys, dir, di, w);
    var m' := m.(phys := phys');
    assert ProcessOK(env, m.phys, roles, p, dir);
    forall q | 0 <= q < |m.processes| ensures ProcessOK(env, phys', roles', q, m.processes[q].mmuBase) {
      var dirQ := m.processes[q].mmuBase;
      assert ProcessOK(env, m.phys, roles, q, dirQ);
      forall dj | 0 <= dj < KERNEL_INDEX ensures TableOK(phys', roles', q, dirQ, dj) {
        assert TableOK(m.phys, roles, q, dirQ, dj);
        TableAfterDirectoryEntry(m.phys, roles, p, dir, di, w, q, dirQ, dj);
      }
    }
    KernelAfterUserWrite(env, m.phys, roles, dir, di, w);
  }

  lemma TableAfterDirectoryEntry(phys: Phys, roles: Roles, p: nat, dir: nat, di: nat, w: nat,
                                 q: nat, dirQ: nat, dj: nat)
    requires TableOK(phys, roles, q, dirQ, dj)
    requires dir in roles && roles[dir] == Directory(p) && dirQ in roles && roles[dirQ] == Directory(q)
    requires q == p ==> dirQ == dir
    requires Bit(w, 1) && Bit(w, 2) && PageOf(w) in roles && roles[PageOf(w)] == Retired(p)
    requires forall i :: 0 <= i < ENTRIES ==> Word(phys, PageOf(w), i) == 0
    ensures TableOK(SetWord(phys, dir, di, w), roles[PageOf(w) := UserTable(p, di)], q, dirQ, dj)
  {
    var t := PageOf(w);
    var phys' := SetWord(phys, dir, di, w);
    var roles' := roles[t := UserTable(p, di)];
    var pde := Word(phys', dirQ, dj);
    if Bit(pde, 0) {
      if pde == Word(phys, dirQ, dj) {
        forall ti | 0 <= ti < ENTRIES ensures PageOK(phys', roles', q, dj, PageOf(pde), ti) {
          assert PageOK(phys, roles, q, dj, PageOf(pde), ti);
        }
      } else {
        assert q == p && dj == di && pde == w;
        forall ti | 0 <= ti < ENTRIES ensures PageOK(phys', roles', q, dj, PageOf(pde), ti) {
          assert Word(phys, PageOf(w), ti) == 0;
          WordAfterSet(phys, dir, di, w, t, ti);
        }
      }
    }
  }

  lemma KernelAfterUserWrite(env: Env, phys: Phys, roles: Roles, page: nat, i: nat, w: nat)
    requires KernelOK(env, phys) && env.Valid()
    requires env.IsFrame(page)
    ensures KernelOK(env, SetWord(phys, page, i, w))
  {
    forall di, ti | KERNEL_INDEX <= di < ENTRIES && 0 <= ti < ENTRIES
      ensures KernelEntryOK(env, SetWord(phys, page, i, w), di, ti)
    {
      assert KernelEntryOK(env, phys, di, ti);
      if Bit(env.KernelWord(di), 0) {
        WordAfterSet(phys, page, i, w, PageOf(env.KernelWord(di)), ti);
      }
    }
  }

  /** The data role of (p, di, ti) goes to frame `f`; a frame that had it is retired but stays owned. */
  function HandOver(roles: Roles, p: nat, di: nat, ti: nat, f: nat): Roles {
    map a | a in roles ::
      if a == f then Data(p, di, ti) else if roles[a] == Data(p, di, ti) then Retired(p) else roles[a]
  }

  /** A retired frame becomes the data page behind a table entry. */
  lemma SetTableEntryKeepsConsistent(env: Env, m: Machine, roles: Roles, p: nat, di: nat, ti: nat, w: nat)
    requires Consistent(env, m, roles) && p < |m.processes| && di < KERNEL_INDEX && ti < ENTRIES
    requires Bit(Word(m.phys, m.processes[p].mmuBase, di), 0)
    requires Bit(w, 0) && Bit(w, 2) && PageOf(w) in roles && roles[PageOf(w)] == Retired(p)
    ensures Consistent(env, m.(phys := SetWord(m.phys, PageOf(Word(m.phys, m.processes[p].mmuBase, di)), ti, w)),
                       HandOver(roles, p, di, ti, PageOf(w)))
  {
    WalkReads(env, m, roles, p, di, ti);
    var t := PageOf(Word(m.phys, m.processes[p].mmuBase, di));
    var phys' := SetWord(m.phys, t, ti, w);
    var roles' := HandOver(roles, p, di, ti, PageOf(w));
    forall q | 0 <= q < |m.processes| ensures ProcessOK(env, phys', roles', q, m.processes[q].mmuBase) {
      ProcessAfterTableEntry(env, m, roles, p, di, t, ti, w, q);
    }
    FramesAfterHandOver(env, m, roles, p, di, ti, PageOf(w), t, w);
    KernelAfterUserWrite(env, m.phys, roles, t, ti, w);
  }

  lemma ProcessAfterTableEntry(env: Env, m: Machine, roles: Roles, p: nat, di: nat, t: nat, ti: nat, w: nat, q: nat)
    requires Consistent(env, m, roles) && p < |m.processes| && q < |m.processes| && ti < ENTRIES
    requires di < KERNEL_INDEX && t == PageOf(Word(m.phys, m.processes[p].mmuBase, di))
    requires t in roles && roles[t] == UserTable(p, di)
    requires Bit(w, 0) && Bit(w, 2) && PageOf(w) in roles && roles[PageOf(w)] == Retired(p)
    ensures ProcessOK(env, SetWord(m.phys, t, ti, w), HandOver(roles, p, di, ti, PageOf(w)), q, m.processes[q].mmuBase)
  {
    var dirQ := m.processes[q].mmuBase;
    var phys' := SetWord(m.phys, t, ti, w);
    var roles' := HandOver(roles, p, di, ti, PageOf(w));
    assert ProcessOK(env, m.phys, roles, q, dirQ);
    assert t in m.phys && |m.phys[t]| == ENTRIES;
    forall dj | 0 <= dj < KERNEL_INDEX ensures TableOK(phys', roles', q, dirQ, dj) {
      assert TableOK(m.phys, roles, q, dirQ, dj);
      TableAfterTableEntry(m.phys, roles, p, di, t, ti, w, q, dirQ, dj);
    }
  }

  /** Frames and owners after a write to one of process `p`'s frames, a retired one becoming data. */
  lemma FramesAfterHandOver(env: Env, m: Machine, roles: Roles, p: nat, di: nat, ti: nat, f: nat, page: nat, w: nat)
    requires FramesOK(env, m, roles) && OwnersOK(m, roles) && ti < ENTRIES
    requires f in roles && roles[f] == Retired(p) && page in roles
    ensures FramesOK(env, m.(phys := SetWord(m.phys, page, ti, w)), HandOver(roles, p, di, ti, f))
    ensures OwnersOK(m.(phys := SetWord(m.phys, page, ti, w)), HandOver(roles, p, di, ti, f))
  {
  }

  lemma TableAfterTableEntry(phys: Phys, roles: Roles, p: nat, di: nat, t: nat, ti: nat, w: nat,
                             q: nat, dirQ: nat, dj: nat)
    requires TableOK(phys, roles, q, dirQ, dj)
    requires t in roles && roles[t] == UserTable(p, di) && dirQ in roles && roles[dirQ] == Directory(q)
    requires t in phys && ti < |phys[t]|
    requires q == p && dj == di && Bit(Word(phys, dirQ, dj), 0) ==> PageOf(Word(phys, dirQ, dj)) == t
    requires Bit(w, 0) && Bit(w, 2) && PageOf(w) in roles && roles[PageOf(w)] == Retired(p)
    ensures TableOK(SetWord(phys, t, ti, w), HandOver(roles, p, di, ti, PageOf(w)), q, dirQ, dj)
  {
    var phys' := SetWord(phys, t, ti, w);
    var roles' := HandOver(roles, p, di, ti, PageOf(w));
    var pde := Word(phys', dirQ, dj);
    assert pde == Word(phys, dirQ, dj);
    if Bit(pde, 0) {
      forall tj | 0 <= tj < ENTRIES ensures PageOK(phys', roles', q, dj, PageOf(pde), tj) {
        assert PageOK(phys, roles, q, dj, PageOf(pde), tj);
        if PageOf(pde) == t && tj == ti {
          assert q == p && dj == di;
        }
      }
    }
  }

  /** Rewriting a present directory entry without moving it. */
  lemma RewriteDirectoryEntryKeepsConsistent(env: Env, m: Machine, roles: Roles, p: nat, di: nat, w: nat)
    requires Consistent(env, m, roles) && p < |m.processes| && di < KERNEL_INDEX
    requires var pde := Word(m.phys, m.processes[p].mmuBase, di);
             Bit(pde, 0) && Bit(w, 1) && Bit(w, 2) && PageOf(w) == PageOf(pde)
    ensures Consistent(env, m.(phys := SetWord(m.phys, m.processes[p].mmuBase, di, w)), roles)
  {
    var dir := m.processes[p].mmuBase;
    var phys' := SetWord(m.phys, dir, di, w);
    assert ProcessOK(env, m.phys, roles, p, dir);
    forall q | 0 <= q < |m.processes| ensures ProcessOK(env, phys', roles, q, m.processes[q].mmuBase) {
      var dirQ := m.processes[q].mmuBase;
      assert ProcessOK(env, m.phys, roles, q, dirQ);
      if q != p {
        ProcessKeptByForeignWrite(env, m.phys, roles, q, dirQ, dir, di, w);
      } else {
        forall dj | 0 <= dj < KERNEL_INDEX ensures TableOK(phys', roles, p, dir, dj) {
          assert TableOK(m.phys, roles, p, dir, dj);
          TableKeptByOwnDirectoryWrite(m.phys, roles, p, dir, di, w, dj);
        }
      }
    }
    KernelAfterUserWrite(env, m.phys, roles, dir, di, w);
  }

  lemma TableKeptByOwnDirectoryWrite(phys: Phys, roles: Roles, p: nat, dir: nat, di: nat, w: nat, dj: nat)
    requires TableOK(phys, roles, p, dir, dj)
    requires dir in roles && roles[dir] == Directory(p)
    requires dj == di ==>
               Bit(Word(phys, dir, di), 0) && Bit(w, 1) && Bit(w, 2) && PageOf(w) == PageOf(Word(phys, dir, di))
    ensures TableOK(SetWord(phys, dir, di, w), roles, p, dir, dj)
  {
    var phys' := SetWord(phys, dir, di, w);
    var pde := Word(phys, dir, dj);
    if Bit(pde, 0) {
      forall ti | 0 <= ti < ENTRIES ensures PageOK(phys', roles, p, dj, PageOf(pde), ti) {
        assert PageOK(phys, roles, p, dj, PageOf(pde), ti);
      }
    }
  }

  /** Rewriting a present table entry without moving it. */
  lemma RewriteTableEntryKeepsConsistent(env: Env, m: Machine, roles: Roles, p: nat, di: nat, ti: nat, w: nat)
    requires Consistent(env, m, roles) && p < |m.processes| && di < KERNEL_INDEX && ti < ENTRIES
    requires var pde := Word(m.phys, m.processes[p].mmuBase, di);
             var pte := Word(m.phys, PageOf(pde), ti);
             Bit(pde, 0) && Bit(pte, 0) && Bit(w, 2) && PageOf(w) == PageOf(pte)
    ensures Consistent(env, m.(phys := SetWord(m.phys, PageOf(Word(m.phys, m.processes[p].mmuBase, di)), ti, w)), roles)
  {
    var dir := m.processes[p].mmuBase;
    assert ProcessOK(env, m.phys, roles, p, dir);
    assert TableOK(m.phys, roles, p, dir, di);
    var t := PageOf(Word(m.phys, dir, di));
    var phys' := SetWord(m.phys, t, ti, w);
    forall q | 0 <= q < |m.processes| ensures ProcessOK(env, phys', roles, q, m.processes[q].mmuBase) {
      var dirQ := m.processes[q].mmuBase;
      assert ProcessOK(env, m.phys, roles, q, dirQ);
      if q != p {
        ProcessKeptByForeignWrite(env, m.phys, roles, q, dirQ, t, ti, w);
      } else {
        forall dj | 0 <= dj < KERNEL_INDEX ensures TableOK(phys', roles, p, dir, dj) {
          assert TableOK(m.phys, roles, p, dir, dj);
          TableKeptByOwnTableWrite(m.phys, roles, p, dir, di, ti, w, dj);
        }
      }
    }
    KernelAfterUserWrite(env, m.phys, roles, t, ti, w);
  }

  lemma TableKeptByOwnTableWrite(phys: Phys, roles: Roles, p: nat, dir: nat, di: nat, ti: nat, w: nat, dj: nat)
    requires TableOK(phys, roles, p, dir, di) && TableOK(phys, roles, p, dir, dj)
    requires dir in roles && roles[dir] == Directory(p) && ti < ENTRIES
    requires var pde := Word(phys, dir, di);
             var pte := Word(phys, PageOf(pde), ti);
             Bit(pde, 0) && Bit(pte, 0) && Bit(w, 2) && PageOf(w) == PageOf(pte)
    ensures TableOK(SetWord(phys, PageOf(Word(phys, dir, di)), ti, w), roles, p, dir, dj)
  {
    var t := PageOf(Word(phys, dir, di));
    var phys' := SetWord(phys, t, ti, w);
    var pde := Word(phys, dir, dj);
    if Bit(pde, 0) {
      forall tj | 0 <= tj < ENTRIES ensures PageOK(phys', roles, p, dj, PageOf(pde), tj) {
        assert PageOK(phys, roles, p, dj, PageOf(pde), tj);
      }
    }
  }

  /** Writing a data frame changes no entry of anybody. */
  lemma DataWriteKeepsConsistent(env: Env, m: Machine, roles: Roles, page: nat, i: nat, w: nat)
    requires Consistent(env, m, roles)
    requires page in roles && (roles[page].Data? || roles[page].Retired?)
    ensures Consistent(env, m.(phys := SetWord(m.phys, page, i, w)), roles)
  {
    forall q | 0 <= q < |m.processes|
      ensures ProcessOK(env, SetWord(m.phys, page, i, w), roles, q, m.processes[q].mmuBase)
    {
      assert ProcessOK(env, m.phys, roles, q, m.processes[q].mmuBase);
      ProcessKeptByForeignWrite(env, m.phys, roles, q, m.processes[q].mmuBase, page, i, w);
    }
    KernelAfterUserWrite(env, m.phys, roles, page, i, w);
  }

  // ---------- Primitive steps and translations ----------

  /** The words a walk reads for process `q`, and where they can lie. */
  lemma WalkReads(env: Env, m: Machine, roles: Roles, q: nat, dj: nat, tj: nat)
    requires Consistent(env, m, roles) && q < |m.processes| && dj < ENTRIES && tj < ENTRIES
    ensures var dir := m.processes[q].mmuBase;
            var pde := Word(m.phys, dir, dj);
            && dir in roles && roles[dir] == Directory(q)
            && (Bit(pde, 0) && dj < KERNEL_INDEX ==>
                  PageOf(pde) in roles && roles[PageOf(pde)] == UserTable(q, dj))
            && (Bit(pde, 0) && dj >= KERNEL_INDEX ==>
                  PageOf(pde) !in roles && !env.IsFrame(PageOf(pde)) && !Bit(pde, 2))
  {
    var dir := m.processes[q].mmuBase;
    assert ProcessOK(env, m.phys, roles, q, dir);
    if dj < KERNEL_INDEX {
      assert TableOK(m.phys, roles, q, dir, dj);
    } else {
      assert Word(m.phys, dir, dj) == env.KernelWord(dj);
    }
  }

  /** Hanging an empty table into a directory changes no translation. */
  lemma WalksAfterDirectoryEntry(env: Env, m: Machine, roles: Roles, p: nat, di: nat, w: nat, q: nat, dj: nat, tj: nat)
    requires Consistent(env, m, roles) && p < |m.processes| && q < |m.processes|
    requires di < KERNEL_INDEX && dj < ENTRIES && tj < ENTRIES
    requires !Bit(Word(m.phys, m.processes[p].mmuBase, di), 0)
    requires PageOf(w) in roles && roles[PageOf(w)] == Retired(p)
    requires forall i :: 0 <= i < ENTRIES ==> Word(m.phys, PageOf(w), i) == 0
    ensures var phys' := SetWord(m.phys, m.processes[p].mmuBase, di, w);
            WalkAt(phys', m.processes[q].mmuBase, dj, tj) == WalkAt(m.phys, m.processes[q].mmuBase, dj, tj)
  {
    WalkReads(env, m, roles, p, di, tj);
    WalkReads(env, m, roles, q, dj, tj);
    var dirP, dirQ := m.processes[p].mmuBase, m.processes[q].mmuBase;
    var phys' := SetWord(m.phys, dirP, di, w);
    var pde := Word(m.phys, dirQ, dj);
    WordAfterSet(m.phys, dirP, di, w, dirQ, dj);
    WordAfterSet(m.phys, dirP, di, w, PageOf(pde), tj);
    WordAfterSet(m.phys, dirP, di, w, PageOf(w), tj);
    assert Word(m.phys, PageOf(w), tj) == 0;
  }

  /** Writing one entry of a user table changes at most that one translation. */
  lemma WalksAfterTableEntry(env: Env, m: Machine, roles: Roles, p: nat, di: nat, ti: nat, w: nat,
                             q: nat, dj: nat, tj: nat)
    requires Consistent(env, m, roles) && p < |m.processes| && q < |m.processes|
    requires di < KERNEL_INDEX && ti < ENTRIES && dj < ENTRIES && tj < ENTRIES
    requires Bit(Word(m.phys, m.processes[p].mmuBase, di), 0)
    ensures var t := PageOf(Word(m.phys, m.processes[p].mmuBase, di));
            var phys' := SetWord(m.phys, t, ti, w);
            && (q != p || dj != di || tj != ti ==>
                  WalkAt(phys', m.processes[q].mmuBase, dj, tj) == WalkAt(m.phys, m.processes[q].mmuBase, dj, tj))
            && (Bit(w, 0) ==> WalkAt(phys', m.processes[p].mmuBase, di, ti)
                              == Some(Translation(PageOf(w), Bit(w, 1), Bit(w, 2))))
  {
    WalkReads(env, m, roles, p, di, ti);
    WalkReads(env, m, roles, q, dj, tj);
    var dirP, dirQ := m.processes[p].mmuBase, m.processes[q].mmuBase;
    assert ProcessOK(env, m.phys, roles, p, dirP);
    assert TableOK(m.phys, roles, p, dirP, di);
    var t := PageOf(Word(m.phys, dirP, di));
    WordAfterSet(m.phys, t, ti, w, dirQ, dj);
    WordAfterSet(m.phys, t, ti, w, dirP, di);
    WordAfterSet(m.phys, t, ti, w, PageOf(Word(m.phys, dirQ, dj)), tj);
  }

  // ---------- map_user_memory ----------

  /** Installing a page behind a present user table. */
  lemma InstallPageEffect(env: Env, m: Machine, roles: Roles, p: nat, di: nat, ti: nat) returns (roles': Roles)
    requires Consistent(env, m, roles) && p < |m.processes| && di < KERNEL_INDEX && ti < ENTRIES
    requires Bit(Word(m.phys, m.processes[p].mmuBase, di), 0)
    requires InstallPage(env, m, p, PageOf(Word(m.phys, m.processes[p].mmuBase, di)), ti).Some?
    ensures var m' := InstallPage(env, m, p, PageOf(Word(m.phys, m.processes[p].mmuBase, di)), ti).value;
            && Consistent(env, m', roles')
            && OnlyNewTranslation(env, m, m', roles, p, di, ti)
  {
    var t := PageOf(Word(m.phys, m.processes[p].mmuBase, di));
    TakeKeepsConsistent(env, m, roles, p);
    var (m1, f) := TakePage(env, m, p).value;
    var roles1 := roles[f := Retired(p)];
    UserWords(f);
    var w := UserTableWord(f);
    WalkReads(env, m, roles, p, di, ti);
    SlotStaysClear(env, m1.phys, t, ti, w);
    SetTableEntryKeepsConsistent(env, m1, roles1, p, di, ti, w);
    roles' := HandOver(roles1, p, di, ti, f);
    forall q, dj, tj | 0 <= q < |m.processes| && 0 <= dj < ENTRIES && 0 <= tj < ENTRIES
      ensures q != p || dj != di || tj != ti ==>
                WalkAt(SetWord(m1.phys, t, ti, w), m.processes[q].mmuBase, dj, tj)
                == WalkAt(m.phys, m.processes[q].mmuBase, dj, tj)
    {
      WalksAfterTableEntry(env, m1, roles1, p, di, ti, w, q, dj, tj);
    }
    WalksAfterTableEntry(env, m1, roles1, p, di, ti, w, p, di, ti);
    WalkReads(env, m1, roles1, p, di, ti);
    forall i | 0 <= i < ENTRIES ensures Word(SetWord(m1.phys, t, ti, w), f, i) == 0 {
      WordAfterSet(m1.phys, t, ti, w, f, i);
      assert Word(m.phys, f, i) == 0;
    }
  }

  /** From `m` to `m'` only the translation of entry (di, ti) of process `p` changed, to a writable
    user mapping of a frame that had no role and holds zeros. */
  ghost predicate OnlyNewTranslation(env: Env, m: Machine, m': Machine, roles: Roles, p: nat, di: nat, ti: nat)
    requires p < |m.processes|
  {
    && |m'.processes| == |m.processes|
    && (forall q :: 0 <= q < |m.processes| ==> m'.processes[q].mmuBase == m.processes[q].mmuBase)
    && (forall q, dj, tj {:trigger WalkAt(m'.phys, m.processes[q].mmuBase, dj, tj)} ::
          0 <= q < |m.processes| && 0 <= dj < ENTRIES && 0 <= tj < ENTRIES && (q != p || dj != di || tj != ti) ==>
            WalkAt(m'.phys, m.processes[q].mmuBase, dj, tj) == WalkAt(m.phys, m.processes[q].mmuBase, dj, tj))
    && var t := WalkAt(m'.phys, m.processes[p].mmuBase, di, ti);
       && t.Some? && t.value.writable && t.value.user
       && env.IsFrame(t.value.frame) && t.value.frame !in roles
       && forall i :: 0 <= i < ENTRIES ==> Word(m'.phys, t.value.frame, i) == 0
  }

  lemma MapAtEffect(env: Env, m: Machine, roles: Roles, p: nat, di: nat, ti: nat) returns (roles': Roles)
    requires Consistent(env, m, roles) && p < |m.processes| && di < KERNEL_INDEX && ti < ENTRIES
    requires MapAt(env, m, p, di, ti).Some?
    ensures Consistent(env, MapAt(env, m, p, di, ti).value, roles')
    ensures OnlyNewTranslation(env, m, MapAt(env, m, p, di, ti).value, roles, p, di, ti)
  {
    var dir := m.processes[p].mmuBase;
    if Bit(Word(m.phys, dir, di), 0) {
      roles' := InstallPageEffect(env, m, roles, p, di, ti);
    } else {
      var roles2 := HangTableEffect(env, m, roles, p, di);
      var (m1, t) := TakePage(env, m, p).value;
      roles' := InstallPageEffect(env, m1.(phys := SetWord(m1.phys, dir, di, UserDirectoryWord(t))), roles2, p, di, ti);
    }
  }

  /** Hanging an empty table behind an absent entry changes no translation. */
  lemma HungTable(env: Env, m: Machine, roles: Roles, p: nat, di: nat, w: nat)
    requires Consistent(env, m, roles) && p < |m.processes| && di < KERNEL_INDEX
    requires !Bit(Word(m.phys, m.processes[p].mmuBase, di), 0)
    requires Bit(w, 0) && Bit(w, 1) && Bit(w, 2) && PageOf(w) in roles && roles[PageOf(w)] == Retired(p)
    requires forall i :: 0 <= i < ENTRIES ==> Word(m.phys, PageOf(w), i) == 0
    ensures var dir := m.processes[p].mmuBase;
            var phys' := SetWord(m.phys, dir, di, w);
            && Consistent(env, m.(phys := phys'), roles[PageOf(w) := UserTable(p, di)])
            && Word(phys', dir, di) == w
            && (forall q, dj, tj {:trigger WalkAt(phys', m.processes[q].mmuBase, dj, tj)} ::
                  0 <= q < |m.processes| && 0 <= dj < ENTRIES && 0 <= tj < ENTRIES ==>
                    WalkAt(phys', m.processes[q].mmuBase, dj, tj) == WalkAt(m.phys, m.processes[q].mmuBase, dj, tj))
  {
    var dir := m.processes[p].mmuBase;
    SetDirectoryEntryKeepsConsistent(env, m, roles, p, di, w);
    WalkReads(env, m, roles, p, di, 0);
    WordAfterSet(m.phys, dir, di, w, dir, di);
    forall q, dj, tj | 0 <= q < |m.processes| && 0 <= dj < ENTRIES && 0 <= tj < ENTRIES
      ensures WalkAt(SetWord(m.phys, dir, di, w), m.processes[q].mmuBase, dj, tj)
           == WalkAt(m.phys, m.processes[q].mmuBase, dj, tj)
    {
      WalksAfterDirectoryEntry(env, m, roles, p, di, w, q, dj, tj);
    }
  }

  /** A new page table behind an absent entry of user directory: no translation changes. */
  lemma HangTableEffect(env: Env, m: Machine, roles: Roles, p: nat, di: nat) returns (roles': Roles)
    requires Consistent(env, m, roles) && p < |m.processes| && di < KERNEL_INDEX
    requires !Bit(Word(m.phys, m.processes[p].mmuBase, di), 0) && TakePage(env, m, p).Some?
    ensures var (m1, t) := TakePage(env, m, p).value;
            var dir := m.processes[p].mmuBase;
            var w := UserDirectoryWord(t);
            var m2 := m1.(phys := SetWord(m1.phys, dir, di, w));
            && Consistent(env, m2, roles') && roles' == roles[t := UserTable(p, di)]
            && Word(m2.phys, dir, di) == w && Bit(w, 0) && PageOf(w) == t
            && (forall q, dj, tj {:trigger WalkAt(m2.phys, m.processes[q].mmuBase, dj, tj)} ::
                  0 <= q < |m.processes| && 0 <= dj < ENTRIES && 0 <= tj < ENTRIES ==>
                    WalkAt(m2.phys, m.processes[q].mmuBase, dj, tj) == WalkAt(m.phys, m.processes[q].mmuBase, dj, tj))
  {
    TakeKeepsConsistent(env, m, roles, p);
    var (m1, t) := TakePage(env, m, p).value;
    var roles1 := roles[t := Retired(p)];
    UserWords(t);
    HungTable(env, m1, roles1, p, di, UserDirectoryWord(t));
    roles' := roles[t := UserTable(p, di)];
    assert roles' == roles1[t := UserTable(p, di)];
  }
}
