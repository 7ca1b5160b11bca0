/** The protocol of InterruptGuard, SpinLock and PageMapGuard (kernel/interruptguard.cpp,
  kernel/spinlock.cpp, kernel/x86/pagemapguard.cpp) as a system of steps: several tasks on one
  processor, preempted only while the interrupt flag is set, and interrupt handlers, which run with the flag
  clear from their start to their return. */
module LockProtocol {
  import opened Wrappers

  /** What an interrupt guard is being constructed for. */
  datatype Purpose = ForLock | ForUnlock | Outer(inside: bool)

  datatype Pc =
    | Idle
    | GuardRead(k: Purpose)   // about to test the interrupt flag
    | GuardCli(k: Purpose)    // found it set, about to clear it
    | Test                    // about to look at m_locked
    | Retry                   // it was held: leave the guard and start over
    | Take                    // it was free: about to set it
    | LockLeave               // m_locked is set, about to leave the guard
    | MapSlot                 // about to write the Temp entry
    | Inside                  // the page map guard is constructed
    | Unmap                   // about to clear the Temp entry
    | ClearLock               // about to assert and clear m_locked
    | UnlockLeave

  /** `guards` holds m_did_disable_interrupts of the guards alive in the task, oldest first; `base` is
    how many there were when the page map guard was constructed. `entry` is the interrupt flag that the task
    finds at its start: set in an ordinary task, clear in an interrupt handler. */
  datatype Task = Task(pc: Pc, guards: seq<bool>, frame: nat, base: nat, entry: bool)

  datatype State = State(tasks: seq<Task>, current: nat, flag: bool, locked: bool, slot: Option<nat>)

  datatype Action =
    | Switch(to: nat)         // an interrupt hands the processor over, or a handler returns
    | Run                     // the current task takes its next step
    | BeginMap(frame: nat)    // construct a PageMapGuard
    | BeginOuter              // construct an InterruptGuard
    | EndOuter                // destruct the innermost InterruptGuard
    | EndMap                  // destruct the PageMapGuard

  /** Whether interrupts are on for a task, read off its guards. */
  predicate FlagOf(t: Task) {
    t.entry && true !in t.guards
  }

  /** A handler that has not started or is about to return. */
  predicate Resting(t: Task) {
    !t.entry && t.pc == Idle && t.guards == []
  }

  predicate CanSwitch(s: State)
    requires s.current < |s.tasks|
  {
    s.flag || Resting(s.tasks[s.current])
  }

  function After(k: Purpose): Pc {
    match k
    case ForLock => Test
    case ForUnlock => ClearLock
    case Outer(inside) => if inside then Inside else Idle
  }

  /** The state after the current task becomes `t`. */
  function With(s: State, t: Task): State
    requires s.current < |s.tasks|
  {
    s.(tasks := s.tasks[s.current := t])
  }

  /** The destructor of an interrupt guard. */
  function Leave(s: State, next: Pc): State
    requires s.current < |s.tasks| && s.tasks[s.current].guards != []
  {
    var t := s.tasks[s.current];
    var n := |t.guards| - 1;
    With(s.(flag := s.flag || t.guards[n]), t.(pc := next, guards := t.guards[..n]))
  }

  /** One step of the current task through code without choice. */
  function RunStep(s: State): Option<State>
    requires s.current < |s.tasks|
  {
    var t := s.tasks[s.current];
    match t.pc
    case Idle => None
    case Inside => None
    case GuardRead(k) =>
      if s.flag then Some(With(s, t.(pc := GuardCli(k))))
      else Some(With(s, t.(pc := After(k), guards := t.guards + [false])))
    case GuardCli(k) => Some(With(s.(flag := false), t.(pc := After(k), guards := t.guards + [true])))
    case Test => Some(With(s, t.(pc := if s.locked then Retry else Take)))
    case Retry => if t.guards == [] then None else Some(Leave(s, GuardRead(ForLock)))
    case Take => Some(With(s.(locked := true), t.(pc := LockLeave)))
    case LockLeave => if t.guards == [] then None else Some(Leave(s, MapSlot))
    case MapSlot => Some(With(s.(slot := Some(t.frame)), t.(pc := Inside, base := |t.guards|)))
    case Unmap => Some(With(s.(slot := None), t.(pc := GuardRead(ForUnlock))))
    case ClearLock => Some(With(s.(locked := false), t.(pc := UnlockLeave)))
    case UnlockLeave => if t.guards == [] then None else Some(Leave(s, Idle))
  }

  /** None when the action is not possible. */
  function Next(s: State, a: Action): Option<State>
    requires s.current < |s.tasks|
  {
    var t := s.tasks[s.current];
    match a
    case Switch(to) =>
      if CanSwitch(s) && to < |s.tasks| then Some(s.(current := to, flag := FlagOf(s.tasks[to]))) else None
    case Run => RunStep(s)
    case BeginMap(frame) =>
      if t.pc == Idle then Some(With(s, t.(pc := GuardRead(ForLock), frame := frame))) else None
    case BeginOuter =>
      if t.pc == Idle || t.pc == Inside then Some(With(s, t.(pc := GuardRead(Outer(t.pc == Inside))))) else None
    case EndOuter =>
      if t.guards != [] && (t.pc == Idle || (t.pc == Inside && |t.guards| > t.base)) then Some(Leave(s, t.pc)) else None
    case EndMap =>
      if t.pc == Inside && |t.guards| == t.base then Some(With(s, t.(pc := Unmap))) else None
  }

  function RunActions(s: State, actions: seq<Action>): Option<State>
    requires s.current < |s.tasks|
    ensures RunActions(s, actions).Some? ==>
              var s' := RunActions(s, actions).value; s'.current < |s'.tasks| == |s.tasks|
    decreases |actions|
  {
    if actions == [] then Some(s)
    else match Next(s, actions[0])
      case None => None
      case Some(s') => RunActions(s', actions[1..])
  }

  predicate Initial(s: State) {
    && s.current < |s.tasks| && s.flag == s.tasks[s.current].entry && !s.locked && s.slot == None
    && forall i :: 0 <= i < |s.tasks| ==> s.tasks[i].pc == Idle && s.tasks[i].guards == []
  }

  // ---------- The invariant ----------

  /** The task is between setting and clearing m_locked. */
  predicate Holds(t: Task) {
    t.pc in {LockLeave, MapSlot, Inside, Unmap, ClearLock, GuardRead(ForUnlock), GuardCli(ForUnlock),
             GuardRead(Outer(true)), GuardCli(Outer(true))}
  }

  /** The task's page map guard is constructed and not yet being destructed. */
  predicate HasMapped(t: Task) {
    t.pc in {Inside, Unmap, GuardRead(Outer(true)), GuardCli(Outer(true))}
  }

  /** The task is inside an interrupt guard of lock() or unlock(). */
  predicate InGuard(t: Task) {
    t.pc in {Test, Retry, Take, LockLeave, ClearLock, UnlockLeave}
  }

  /** At most one guard of a task really switched interrupts off. */
  ghost predicate OneTrue(g: seq<bool>) {
    forall i, j :: 0 <= i < j < |g| ==> !(g[i] && g[j])
  }

  ghost predicate TaskOK(s: State, i: nat)
    requires i < |s.tasks|
  {
    var t := s.tasks[i];
    && OneTrue(t.guards)
    && (true in t.guards ==> t.entry)
    && (i != s.current ==> FlagOf(t) || Resting(t))
    && (i == s.current ==> s.flag == FlagOf(t))
    && (t.pc.GuardCli? ==> FlagOf(t))
    && (InGuard(t) ==> !FlagOf(t) && t.guards != [])
    && (t.pc == Take ==> !s.locked)
    && (Holds(t) ==> s.locked)
    && (HasMapped(t) ==> s.slot == Some(t.frame))
  }

  ghost predicate Invariant(s: State) {
    && s.current < |s.tasks|
    && (forall i :: 0 <= i < |s.tasks| ==> TaskOK(s, i))
    && (forall i, j :: 0 <= i < |s.tasks| && 0 <= j < |s.tasks| && Holds(s.tasks[i]) && Holds(s.tasks[j]) ==> i == j)
    && (s.locked ==> exists i :: 0 <= i < |s.tasks| && Holds(s.tasks[i]))
    && (s.slot.Some? ==> exists i :: 0 <= i < |s.tasks| && HasMapped(s.tasks[i]))
  }

  lemma InitialInvariant(s: State)
    requires Initial(s)
    ensures Invariant(s)
  {
  }

  lemma SwitchKeepsInvariant(s: State, to: nat)
    requires Invariant(s) && CanSwitch(s) && to < |s.tasks|
    ensures Invariant(s.(current := to, flag := FlagOf(s.tasks[to])))
  {
    var s' := s.(current := to, flag := FlagOf(s.tasks[to]));
    forall i | 0 <= i < |s'.tasks| ensures TaskOK(s', i) {
      assert TaskOK(s, i);
    }
  }

  /** A step that changes only the program counter, guards and flag of the current task, keeping
    whether it holds the lock and has mapped the slot. */
  lemma LocalStepKeepsInvariant(s: State, s': State)
    requires Invariant(s) && s'.current == s.current && |s'.tasks| == |s.tasks|
    requires s'.locked == s.locked && s'.slot == s.slot
    requires forall i :: 0 <= i < |s.tasks| && i != s.current ==> s'.tasks[i] == s.tasks[i]
    requires Holds(s'.tasks[s.current]) == Holds(s.tasks[s.current])
    requires HasMapped(s'.tasks[s.current]) == HasMapped(s.tasks[s.current])
    requires TaskOK(s', s.current)
    ensures Invariant(s')
  {
    forall i | 0 <= i < |s'.tasks| ensures TaskOK(s', i) {
      assert TaskOK(s, i);
    }
    forall i, j | 0 <= i < |s'.tasks| && 0 <= j < |s'.tasks| && Holds(s'.tasks[i]) && Holds(s'.tasks[j])
      ensures i == j
    {
      assert Holds(s.tasks[i]) && Holds(s.tasks[j]);
    }
    if s.locked {
      var i :| 0 <= i < |s.tasks| && Holds(s.tasks[i]);
      assert Holds(s'.tasks[i]);
    }
    if s.slot.Some? {
      var i :| 0 <= i < |s.tasks| && HasMapped(s.tasks[i]);
      assert HasMapped(s'.tasks[i]);
    }
  }

  lemma GuardsSplit(g: seq<bool>)
    requires g != [] && OneTrue(g)
    ensures var n := |g| - 1;
            && OneTrue(g[..n])
            && (true !in g[..n] <==> true !in g || g[n])
  {
    var n := |g| - 1;
    assert g == g[..n] + [g[n]];
    assert forall i :: 0 <= i < n ==> !(g[i] && g[n]);
  }

  /** Leaving a guard restores the flag that the remaining guards stand for. */
  lemma LeaveOK(s: State, next: Pc)
    requires Invariant(s) && s.tasks[s.current].guards != []
    requires next in {Idle, Inside, MapSlot, GuardRead(ForLock)}
    requires Holds(s.tasks[s.current]) <==> next in {Inside, MapSlot}
    requires HasMapped(s.tasks[s.current]) <==> next == Inside
    ensures Invariant(Leave(s, next))
  {
    assert TaskOK(s, s.current);
    GuardsSplit(s.tasks[s.current].guards);
    LocalStepKeepsInvariant(s, Leave(s, next));
  }

  /** Constructing a guard when the flag is already clear. */
  lemma GuardReadKeepsInvariant(s: State)
    requires Invariant(s) && s.tasks[s.current].pc.GuardRead?
    ensures Invariant(RunStep(s).value)
  {
    var t := s.tasks[s.current];
    assert TaskOK(s, s.current);
    var s' := RunStep(s).value;
    var t' := s'.tasks[s.current];
    if !s.flag {
      assert t'.guards == t.guards + [false];
    }
    LocalStepKeepsInvariant(s, s');
  }

  lemma GuardCliKeepsInvariant(s: State)
    requires Invariant(s) && s.tasks[s.current].pc.GuardCli?
    ensures Invariant(RunStep(s).value)
  {
    var t := s.tasks[s.current];
    assert TaskOK(s, s.current);
    var s' := RunStep(s).value;
    var t' := s'.tasks[s.current];
    assert t'.guards[|t.guards|];
    LocalStepKeepsInvariant(s, s');
  }

  /** Only the current task can be inside an interrupt guard. */
  lemma OthersOutsideGuards(s: State, i: nat)
    requires Invariant(s) && i < |s.tasks| && i != s.current
    ensures !InGuard(s.tasks[i])
  {
    assert TaskOK(s, i);
  }

  lemma TakeKeepsInvariant(s: State)
    requires Invariant(s) && s.tasks[s.current].pc == Take
    ensures Invariant(RunStep(s).value)
  {
    var s' := RunStep(s).value;
    assert TaskOK(s, s.current);
    forall i | 0 <= i < |s'.tasks| ensures TaskOK(s', i) && (i != s.current ==> !Holds(s'.tasks[i])) {
      assert TaskOK(s, i);
      if i != s.current {
        OthersOutsideGuards(s, i);
      }
    }
    SlotMeansLocked(s);
    assert Holds(s'.tasks[s.current]);
  }

  lemma SlotMeansLocked(s: State)
    requires Invariant(s)
    ensures s.slot.Some? ==> s.locked
  {
    if s.slot.Some? {
      var i :| 0 <= i < |s.tasks| && HasMapped(s.tasks[i]);
      assert TaskOK(s, i);
    }
  }

  lemma MapSlotKeepsInvariant(s: State)
    requires Invariant(s) && s.tasks[s.current].pc == MapSlot
    ensures Invariant(RunStep(s).value)
  {
    var s' := RunStep(s).value;
    assert TaskOK(s, s.current);
    forall i | 0 <= i < |s'.tasks| ensures TaskOK(s', i) && (i != s.current ==> !Holds(s'.tasks[i])) {
      assert TaskOK(s, i);
      OnlyHolder(s, i);
    }
    assert Holds(s'.tasks[s.current]) && HasMapped(s'.tasks[s.current]);
  }

  lemma UnmapKeepsInvariant(s: State)
    requires Invariant(s) && s.tasks[s.current].pc == Unmap
    ensures Invariant(RunStep(s).value)
  {
    var s' := RunStep(s).value;
    assert TaskOK(s, s.current);
    forall i | 0 <= i < |s'.tasks| ensures TaskOK(s', i) && (i != s.current ==> !Holds(s'.tasks[i])) {
      assert TaskOK(s, i);
      OnlyHolder(s, i);
    }
    assert Holds(s'.tasks[s.current]);
  }

  lemma ClearLockKeepsInvariant(s: State)
    requires Invariant(s) && s.tasks[s.current].pc == ClearLock
    ensures Invariant(RunStep(s).value)
  {
    var s' := RunStep(s).value;
    assert TaskOK(s, s.current);
    forall i | 0 <= i < |s'.tasks| ensures TaskOK(s', i) && !Holds(s'.tasks[i]) {
      assert TaskOK(s, i);
      OnlyHolder(s, i);
    }
    HolderOwnsSlot(s);
  }

  /** While the current task holds the lock, nobody else can have the slot mapped. */
  lemma HolderOwnsSlot(s: State)
    requires Invariant(s) && Holds(s.tasks[s.current])
    ensures s.slot.Some? ==> HasMapped(s.tasks[s.current])
  {
    if s.slot.Some? {
      var i :| 0 <= i < |s.tasks| && HasMapped(s.tasks[i]);
      OnlyHolder(s, i);
    }
  }

  lemma OnlyHolder(s: State, i: nat)
    requires Invariant(s) && Holds(s.tasks[s.current]) && i < |s.tasks|
    ensures i != s.current ==> !Holds(s.tasks[i])
  {
    if Holds(s.tasks[i]) {
      assert i == s.current;
    }
  }

  lemma TestKeepsInvariant(s: State)
    requires Invariant(s) && s.tasks[s.current].pc == Test
    ensures Invariant(RunStep(s).value)
  {
    assert TaskOK(s, s.current);
    LocalStepKeepsInvariant(s, RunStep(s).value);
  }

  /** A task inside an interrupt guard has that guard on its stack, so RunStep is never stuck. */
  lemma GuardPresent(s: State)
    requires Invariant(s) && InGuard(s.tasks[s.current])
    ensures s.tasks[s.current].guards != [] && RunStep(s).Some?
  {
    assert TaskOK(s, s.current);
  }

  lemma RunStepKeepsInvariant(s: State)
    requires Invariant(s) && RunStep(s).Some?
    ensures Invariant(RunStep(s).value)
  {
    match s.tasks[s.current].pc
    case Idle =>
    case Inside =>
    case GuardRead(_) => GuardReadKeepsInvariant(s);
    case GuardCli(_) => GuardCliKeepsInvariant(s);
    case Test => TestKeepsInvariant(s);
    case Retry => LeaveOK(s, GuardRead(ForLock));
    case Take => TakeKeepsInvariant(s);
    case LockLeave => LeaveOK(s, MapSlot);
    case MapSlot => MapSlotKeepsInvariant(s);
    case Unmap => UnmapKeepsInvariant(s);
    case ClearLock => ClearLockKeepsInvariant(s);
    case UnlockLeave => LeaveOK(s, Idle);
  }

  lemma NextKeepsInvariant(s: State, a: Action)
    requires Invariant(s) && Next(s, a).Some?
    ensures Invariant(Next(s, a).value)
  {
    assert TaskOK(s, s.current);
    match a
    case Switch(to) => SwitchKeepsInvariant(s, to);
    case Run => RunStepKeepsInvariant(s);
    case BeginMap(_) => LocalStepKeepsInvariant(s, Next(s, a).value);
    case BeginOuter => LocalStepKeepsInvariant(s, Next(s, a).value);
    case EndOuter => LeaveOK(s, s.tasks[s.current].pc);
    case EndMap => LocalStepKeepsInvariant(s, Next(s, a).value);
  }

  lemma {:induction false} RunKeepsInvariant(s: State, actions: seq<Action>)
    requires Invariant(s) && RunActions(s, actions).Some?
    ensures Invariant(RunActions(s, actions).value)
    decreases |actions|
  {
    if actions != [] {
      NextKeepsInvariant(s, actions[0]);
      RunKeepsInvariant(Next(s, actions[0]).value, actions[1..]);
    }
  }

  // ---------- What holds in every reachable state ----------

  /** In every interleaving: at most one task is between acquiring and releasing the lock; the slot is
    present only while somebody holds the lock, and a task whose page map guard is alive, running or
    preempted, finds its own frame in the slot; and unlock's assertion never fails. */
  lemma MutualExclusion(s: State, actions: seq<Action>, i: nat, j: nat)
    requires Initial(s) && RunActions(s, actions).Some?
    requires i < |s.tasks| && j < |s.tasks|
    ensures var r := RunActions(s, actions).value;
            && (Holds(r.tasks[i]) && Holds(r.tasks[j]) ==> i == j)
            && (HasMapped(r.tasks[i]) ==> r.slot == Some(r.tasks[i].frame))
            && (r.slot.Some? ==> r.locked)
            && (r.tasks[i].pc == ClearLock ==> r.locked)
  {
    InitialInvariant(s);
    RunKeepsInvariant(s, actions);
    var r := RunActions(s, actions).value;
    assert TaskOK(r, i) && TaskOK(r, j);
    SlotMeansLocked(r);
  }

  lemma NextKeepsEntry(s: State, a: Action, i: nat)
    requires s.current < |s.tasks| && i < |s.tasks| && Next(s, a).Some?
    ensures |Next(s, a).value.tasks| == |s.tasks| && Next(s, a).value.tasks[i].entry == s.tasks[i].entry
  {
  }

  lemma {:induction false} EntryStays(s: State, actions: seq<Action>, i: nat)
    requires s.current < |s.tasks| && i < |s.tasks| && RunActions(s, actions).Some?
    ensures RunActions(s, actions).value.tasks[i].entry == s.tasks[i].entry
    decreases |actions|
  {
    if actions != [] {
      NextKeepsEntry(s, actions[0], i);
      EntryStays(Next(s, actions[0]).value, actions[1..], i);
    }
  }

  /** Interrupt guards restore the flag they found, at any depth, in tasks and in handlers: whenever the one
    running has the same guards alive in two reachable states, the flag is the same. */
  lemma GuardsRestoreFlag(s: State, before: seq<Action>, after: seq<Action>, i: nat)
    requires Initial(s) && RunActions(s, before).Some?
    requires RunActions(RunActions(s, before).value, after).Some?
    requires var u := RunActions(s, before).value;
             var v := RunActions(u, after).value;
             u.current == i == v.current && u.tasks[i].guards == v.tasks[i].guards
    ensures RunActions(RunActions(s, before).value, after).value.flag == RunActions(s, before).value.flag
  {
    InitialInvariant(s);
    RunKeepsInvariant(s, before);
    var u := RunActions(s, before).value;
    RunKeepsInvariant(u, after);
    EntryStays(u, after, i);
    assert TaskOK(u, i) && TaskOK(RunActions(u, after).value, i);
  }

  // ---------- Spinning with interrupts off ----------

  /** The current task spins for the lock under an outer guard, or in a handler, while another task holds
    it. */
  predicate Stuck(s: State, me: nat) {
    && s.current == me < |s.tasks| && s.locked && !s.flag
    && var t := s.tasks[me];
       if t.pc == Test || t.pc == Retry then t.guards != [] && !t.guards[|t.guards| - 1]
       else t.pc == GuardRead(ForLock)
  }

  /** Such a task never gets the lock and never gives up the processor, whatever happens next: the spin lock
    must not be taken under an interrupt guard or in a handler while others may hold it. */
  lemma {:induction false} StuckForever(s: State, me: nat, actions: seq<Action>)
    requires Stuck(s, me) && RunActions(s, actions).Some?
    ensures Stuck(RunActions(s, actions).value, me)
    decreases |actions|
  {
    if actions != [] {
      var t := s.tasks[me];
      var s' := Next(s, actions[0]).value;
      assert actions[0] == Run;
      if t.pc == GuardRead(ForLock) {
        assert s'.tasks[me].guards == t.guards + [false];
      }
      StuckForever(s', me, actions[1..]);
    }
  }
}