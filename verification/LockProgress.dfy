/** When a task that waits for the spin lock can get it: exactly when the running task does not itself spin
  for it with interrupts off while another task holds it. */
module LockProgress {
  import opened Wrappers
  import opened LockProtocol

  /** The task is inside lock(), in front of setting m_locked. */
  predicate Waiting(t: Task) {
    t.pc in {GuardRead(ForLock), GuardCli(ForLock), Test, Retry, Take}
  }

  /** Guards that were there before the page map guard are still there inside it. */
  predicate BaseOK(t: Task) {
    t.pc in {Inside, GuardRead(Outer(true)), GuardCli(Outer(true))} ==> t.base <= |t.guards|
  }

  ghost predicate Good(s: State) {
    Invariant(s) && forall i :: 0 <= i < |s.tasks| ==> BaseOK(s.tasks[i])
  }

  lemma NextKeepsGood(s: State, a: Action)
    requires Good(s) && Next(s, a).Some?
    ensures Good(Next(s, a).value)
  {
    NextKeepsInvariant(s, a);
    var s' := Next(s, a).value;
    assert BaseOK(s.tasks[s.current]);
    NextKeepsBase(s, a);
    OthersStay(s, a);
    forall i | 0 <= i < |s'.tasks| && i != s.current ensures BaseOK(s'.tasks[i]) {
      assert BaseOK(s.tasks[i]);
    }
  }

  lemma RunStepKeepsBase(s: State)
    requires s.current < |s.tasks| && BaseOK(s.tasks[s.current]) && RunStep(s).Some?
    ensures |RunStep(s).value.tasks| == |s.tasks| && BaseOK(RunStep(s).value.tasks[s.current])
  {
  }

  lemma NextKeepsBase(s: State, a: Action)
    requires s.current < |s.tasks| && BaseOK(s.tasks[s.current]) && Next(s, a).Some?
    ensures |Next(s, a).value.tasks| == |s.tasks| && BaseOK(Next(s, a).value.tasks[s.current])
  {
    match a
    case Run => RunStepKeepsBase(s);
    case Switch(_) =>
    case BeginMap(_) =>
    case BeginOuter =>
    case EndOuter =>
    case EndMap =>
  }

  lemma OthersStay(s: State, a: Action)
    requires s.current < |s.tasks| && Next(s, a).Some?
    ensures var s' := Next(s, a).value;
            |s'.tasks| == |s.tasks| && forall i :: 0 <= i < |s.tasks| && i != s.current ==> s'.tasks[i] == s.tasks[i]
  {
  }

  lemma {:induction false} RunKeepsGood(s: State, actions: seq<Action>)
    requires Good(s) && RunActions(s, actions).Some?
    ensures Good(RunActions(s, actions).value)
    decreases |actions|
  {
    if actions != [] {
      NextKeepsGood(s, actions[0]);
      RunKeepsGood(Next(s, actions[0]).value, actions[1..]);
    }
  }

  // ---------- Driving the running task ----------

  /** Only the running task has moved. */
  ghost predicate OnlyCurrentMoved(s: State, r: State) {
    && s.current == r.current && |s.tasks| == |r.tasks|
    && forall i :: 0 <= i < |s.tasks| && i != s.current ==> r.tasks[i] == s.tasks[i]
  }

  /** What the running task does next on its way out of all guards. */
  function WayOut(t: Task): Action {
    if t.pc == Idle then EndOuter
    else if t.pc == Inside then if |t.guards| > t.base then EndOuter else EndMap
    else Run
  }

  /** How far the task is from being idle without guards, as long as it finds the lock free. */
  function Stage(pc: Pc): nat {
    match pc
    case Idle => 0
    case UnlockLeave => 1
    case ClearLock => 2
    case GuardCli(ForLock) => 43
    case GuardCli(ForUnlock) => 13
    case GuardCli(Outer(inside)) => if inside then 27 else 11
    case GuardRead(ForLock) => 44
    case GuardRead(ForUnlock) => 14
    case GuardRead(Outer(inside)) => if inside then 28 else 12
    case Unmap => 15
    case Inside => 16
    case MapSlot => 29
    case LockLeave => 30
    case Take => 31
    case Test => 32
    case Retry => 35
  }

  function Distance(t: Task): nat {
    10 * |t.guards| + Stage(t.pc)
  }

  lemma StepOutPossible(s: State)
    requires Good(s)
    requires var t := s.tasks[s.current]; t.pc != Idle || t.guards != []
    ensures Next(s, WayOut(s.tasks[s.current])).Some?
  {
    var t := s.tasks[s.current];
    if InGuard(t) {
      GuardPresent(s);
    }
    assert BaseOK(t);
  }

  /** One step on the way out: it is possible, it brings the task closer, and a task still waiting still
    finds the lock free. */
  lemma StepOut(s: State)
    requires Good(s)
    requires var t := s.tasks[s.current]; (t.pc != Idle || t.guards != []) && (Waiting(t) ==> !s.locked)
    ensures var t := s.tasks[s.current];
            && Next(s, WayOut(t)).Some?
            && var s' := Next(s, WayOut(t)).value;
               && Good(s') && OnlyCurrentMoved(s, s')
               && Distance(s'.tasks[s.current]) < Distance(t)
               && (Waiting(s'.tasks[s.current]) ==> Waiting(t) && !s'.locked)
               && (Waiting(t) ==> if t.pc == Take then Holds(s'.tasks[s.current]) else Waiting(s'.tasks[s.current]))
  {
    var t := s.tasks[s.current];
    StepOutPossible(s);
    NextKeepsGood(s, WayOut(t));
    OthersStay(s, WayOut(t));
    StepOutCloser(s);
  }

  lemma StepOutCloser(s: State)
    requires s.current < |s.tasks| && Next(s, WayOut(s.tasks[s.current])).Some?
    requires var t := s.tasks[s.current]; Waiting(t) ==> !s.locked
    ensures var t := s.tasks[s.current];
            var s' := Next(s, WayOut(t)).value;
            && s'.current == s.current && |s'.tasks| == |s.tasks|
            && Distance(s'.tasks[s.current]) < Distance(t)
            && (Waiting(s'.tasks[s.current]) ==> Waiting(t) && !s'.locked)
            && (Waiting(t) ==> if t.pc == Take then Holds(s'.tasks[s.current]) else Waiting(s'.tasks[s.current]))
  {
  }

  /** The running task can come out of all guards, unless it waits for a lock that is held. */
  lemma {:induction false} DriveOut(s: State) returns (actions: seq<Action>)
    requires Good(s) && (Waiting(s.tasks[s.current]) ==> !s.locked)
    ensures RunActions(s, actions).Some?
    ensures var r := RunActions(s, actions).value;
            && Good(r) && OnlyCurrentMoved(s, r) && CanSwitch(r)
            && r.tasks[s.current].pc == Idle && r.tasks[s.current].guards == []
    decreases Distance(s.tasks[s.current])
  {
    var t := s.tasks[s.current];
    if t.pc == Idle && t.guards == [] {
      actions := [];
      assert TaskOK(s, s.current);
    } else {
      StepOut(s);
      var rest := DriveOut(Next(s, WayOut(t)).value);
      actions := [WayOut(t)] + rest;
      FirstAction(s, WayOut(t), rest);
    }
  }

  lemma FirstAction(s: State, a: Action, rest: seq<Action>)
    requires s.current < |s.tasks| && Next(s, a).Some?
    ensures var s' := Next(s, a).value;
            s'.current < |s'.tasks| && RunActions(s, [a] + rest) == RunActions(s', rest)
  {
    assert ([a] + rest)[0] == a && ([a] + rest)[1..] == rest;
  }

  lemma {:induction false} RunAppend(s: State, a: seq<Action>, b: seq<Action>)
    requires s.current < |s.tasks| && RunActions(s, a).Some?
    ensures RunActions(s, a + b) == RunActions(RunActions(s, a).value, b)
    decreases |a|
  {
    if a == [] {
      assert a + b == b;
    } else {
      assert (a + b)[0] == a[0] && (a + b)[1..] == a[1..] + b;
      RunAppend(Next(s, a[0]).value, a[1..], b);
    }
  }

  /** The running task gets a lock that is free. */
  lemma {:induction false} GrabFreeLock(s: State) returns (actions: seq<Action>)
    requires Good(s) && Waiting(s.tasks[s.current]) && !s.locked
    ensures RunActions(s, actions).Some?
    ensures var r := RunActions(s, actions).value; |r.tasks| == |s.tasks| && Holds(r.tasks[s.current])
    decreases Distance(s.tasks[s.current])
  {
    var t := s.tasks[s.current];
    StepOut(s);
    var s' := Next(s, WayOut(t)).value;
    var rest := [];
    if t.pc != Take {
      rest := GrabFreeLock(s');
    }
    actions := [WayOut(t)] + rest;
    FirstAction(s, WayOut(t), rest);
  }

  /** A task that waits for a held lock and is not stuck comes to a point where it can be preempted. */
  lemma Unstick(s: State) returns (actions: seq<Action>)
    requires Good(s) && Waiting(s.tasks[s.current]) && s.locked && !Stuck(s, s.current)
    ensures RunActions(s, actions).Some?
    ensures var r := RunActions(s, actions).value;
            Good(r) && OnlyCurrentMoved(s, r) && CanSwitch(r) && Waiting(r.tasks[s.current])
  {
    var t := s.tasks[s.current];
    assert TaskOK(s, s.current);
    actions := [];
    if t.pc == Retry {
      actions := LeaveRetry(s);
    } else if t.pc == Test {
      GuardPresent(s);
      var s' := Next(s, Run).value;
      NextKeepsGood(s, Run);
      var rest := LeaveRetry(s');
      actions := [Run] + rest;
      FirstAction(s, Run, rest);
    }
  }

  lemma LeaveRetry(s: State) returns (actions: seq<Action>)
    requires Good(s)
    requires var t := s.tasks[s.current]; t.pc == Retry && t.guards != [] && t.guards[|t.guards| - 1]
    ensures RunActions(s, actions).Some?
    ensures var r := RunActions(s, actions).value;
            Good(r) && OnlyCurrentMoved(s, r) && CanSwitch(r) && Waiting(r.tasks[s.current])
  {
    NextKeepsGood(s, Run);
    actions := [Run] + [];
    FirstAction(s, Run, []);
  }

  // ---------- Getting the lock ----------

  /** When nobody but the running task held the lock, and it has come out of its guards, the lock is free. */
  lemma FreeAfterDriveOut(s: State, r: State)
    requires Good(s) && Good(r) && OnlyCurrentMoved(s, r) && r.tasks[s.current].pc == Idle
    requires !s.locked || Holds(s.tasks[s.current])
    ensures !r.locked
  {
    forall i | 0 <= i < |r.tasks| ensures !Holds(r.tasks[i]) {
      assert TaskOK(s, i);
      assert i != s.current ==> r.tasks[i] == s.tasks[i] && !Holds(s.tasks[i]);
    }
  }

  lemma SwitchTo(s: State, to: nat) returns (s': State)
    requires Good(s) && CanSwitch(s) && to < |s.tasks|
    ensures Next(s, Switch(to)) == Some(s') && s' == s.(current := to, flag := FlagOf(s.tasks[to])) && Good(s')
  {
    s' := s.(current := to, flag := FlagOf(s.tasks[to]));
    NextKeepsGood(s, Switch(to));
  }

  /** While the processor can be handed over, the holder can be brought to give the lock up, and then the
    waiting task takes it. */
  lemma GetFromSwitch(s: State, w: nat) returns (actions: seq<Action>)
    requires Good(s) && CanSwitch(s) && w < |s.tasks| && Waiting(s.tasks[w])
    ensures RunActions(s, actions).Some?
    ensures var r := RunActions(s, actions).value; |r.tasks| == |s.tasks| && Holds(r.tasks[w])
  {
    if s.locked {
      var h :| 0 <= h < |s.tasks| && Holds(s.tasks[h]);
      var s1 := SwitchTo(s, h);
      var out := DriveOut(s1);
      var r1 := RunActions(s1, out).value;
      FreeAfterDriveOut(s1, r1);
      var rest := GetFreeLock(r1, w);
      RunAppend(s1, out, rest);
      actions := [Switch(h)] + (out + rest);
      FirstAction(s, Switch(h), out + rest);
    } else {
      actions := GetFreeLock(s, w);
    }
  }

  lemma GetFreeLock(s: State, w: nat) returns (actions: seq<Action>)
    requires Good(s) && CanSwitch(s) && !s.locked && w < |s.tasks| && Waiting(s.tasks[w])
    ensures RunActions(s, actions).Some?
    ensures var r := RunActions(s, actions).value; |r.tasks| == |s.tasks| && Holds(r.tasks[w])
  {
    var s2 := SwitchTo(s, w);
    var grab := GrabFreeLock(s2);
    actions := [Switch(w)] + grab;
    FirstAction(s, Switch(w), grab);
  }

  lemma GetUnlessStuck(s: State, w: nat) returns (actions: seq<Action>)
    requires Good(s) && w < |s.tasks| && Waiting(s.tasks[w]) && !Stuck(s, s.current)
    ensures RunActions(s, actions).Some?
    ensures var r := RunActions(s, actions).value; |r.tasks| == |s.tasks| && Holds(r.tasks[w])
  {
    var c := s.current;
    if c == w && !s.locked {
      actions := GrabFreeLock(s);
    } else {
      var first;
      if Waiting(s.tasks[c]) && s.locked {
        first := Unstick(s);
      } else {
        first := DriveOut(s);
      }
      var r := RunActions(s, first).value;
      var rest := GetFromSwitch(r, w);
      RunAppend(s, first, rest);
      actions := first + rest;
    }
  }

  /** While a task is stuck, no other moves. */
  lemma {:induction false} StuckFreezesOthers(s: State, me: nat, actions: seq<Action>)
    requires Stuck(s, me) && RunActions(s, actions).Some?
    ensures Stuck(RunActions(s, actions).value, me) && OnlyCurrentMoved(s, RunActions(s, actions).value)
    decreases |actions|
  {
    StuckForever(s, me, actions);
    if actions != [] {
      StuckForever(s, me, [actions[0]]);
      assert RunActions(s, [actions[0]]) == Next(s, actions[0]) by {
        assert [actions[0]][1..] == [];
      }
      assert actions[0] == Run;
      StuckFreezesOthers(Next(s, actions[0]).value, me, actions[1..]);
    }
  }

  /** lock() comes back: in every reachable state, a task that waits for the lock has a continuation in
    which it gets it if and only if the running task is not stuck. */
  lemma LockComesIff(s: State, before: seq<Action>, w: nat)
    requires Initial(s) && RunActions(s, before).Some?
    requires w < |s.tasks| && Waiting(RunActions(s, before).value.tasks[w])
    ensures var r := RunActions(s, before).value;
            (exists actions :: RunActions(r, actions).Some? && Holds(RunActions(r, actions).value.tasks[w]))
            <==> !Stuck(r, r.current)
  {
    InitialInvariant(s);
    RunKeepsGood(s, before);
    var r := RunActions(s, before).value;
    if Stuck(r, r.current) {
      forall actions | RunActions(r, actions).Some? ensures !Holds(RunActions(r, actions).value.tasks[w]) {
        StuckFreezesOthers(r, r.current, actions);
      }
    } else {
      var actions := GetUnlessStuck(r, w);
    }
  }

  // ---------- A stuck state is reached ----------

  /** Two tasks, of which number `c` runs. */
  function Two(a: Task, b: Task, c: nat, flag: bool, locked: bool, slot: Option<nat>): State {
    State([a, b], c, flag, locked, slot)
  }

  lemma MoveOne(a: Task, b: Task, c: nat, flag: bool, locked: bool, slot: Option<nat>, t: Task)
    requires c < 2
    ensures With(Two(a, b, c, flag, locked, slot), t)
         == if c == 0 then Two(t, b, 0, flag, locked, slot) else Two(a, t, 1, flag, locked, slot)
  {
  }

  /** The first task comes from its idle state into lock(). */
  lemma FirstLocks(b: Task) returns (actions: seq<Action>)
    ensures RunActions(Two(Task(Idle, [], 0, 0, true), b, 0, true, false, None), actions)
         == Some(Two(Task(Take, [true], 1, 0, true), b, 0, false, false, None))
  {
    var s0 := Two(Task(Idle, [], 0, 0, true), b, 0, true, false, None);
    var s1 := Two(Task(GuardRead(ForLock), [], 1, 0, true), b, 0, true, false, None);
    var s2 := Two(Task(GuardCli(ForLock), [], 1, 0, true), b, 0, true, false, None);
    var s3 := Two(Task(Test, [true], 1, 0, true), b, 0, false, false, None);
    MoveOne(s0.tasks[0], b, 0, true, false, None, s1.tasks[0]);
    MoveOne(s1.tasks[0], b, 0, true, false, None, s2.tasks[0]);
    MoveOne(s2.tasks[0], b, 0, false, false, None, s3.tasks[0]);
    MoveOne(s3.tasks[0], b, 0, false, false, None, Task(Take, [true], 1, 0, true));
    assert [] + [true] == [true];
    FirstAction(s3, Run, []);
    FirstAction(s2, Run, [Run] + []);
    FirstAction(s1, Run, [Run] + ([Run] + []));
    actions := [BeginMap(1)] + ([Run] + ([Run] + ([Run] + [])));
    FirstAction(s0, BeginMap(1), [Run] + ([Run] + ([Run] + [])));
  }

  /** It takes the lock and maps the slot. */
  lemma FirstMaps(b: Task) returns (actions: seq<Action>)
    ensures RunActions(Two(Task(Take, [true], 1, 0, true), b, 0, false, false, None), actions)
         == Some(Two(Task(Inside, [], 1, 0, true), b, 0, true, true, Some(1)))
  {
    var s0 := Two(Task(Take, [true], 1, 0, true), b, 0, false, false, None);
    var s1 := Two(Task(LockLeave, [true], 1, 0, true), b, 0, false, true, None);
    var s2 := Two(Task(MapSlot, [], 1, 0, true), b, 0, true, true, None);
    MoveOne(s0.tasks[0], b, 0, false, true, None, s1.tasks[0]);
    MoveOne(s1.tasks[0], b, 0, true, true, None, s2.tasks[0]);
    MoveOne(s2.tasks[0], b, 0, true, true, Some(1), Task(Inside, [], 1, 0, true));
    assert [true][..0] == [];
    FirstAction(s2, Run, []);
    FirstAction(s1, Run, [Run] + []);
    actions := [Run] + ([Run] + ([Run] + []));
    FirstAction(s0, Run, [Run] + ([Run] + []));
  }

  /** Preempted by a second task, which switches interrupts off and asks for the lock too. */
  lemma SecondAsks(a: Task) returns (actions: seq<Action>)
    ensures RunActions(Two(a, Task(Idle, [], 0, 0, true), 0, true, true, Some(1)), actions)
         == Some(Two(a, Task(GuardRead(ForLock), [true], 2, 0, true), 1, false, true, Some(1)))
  {
    var s0 := Two(a, Task(Idle, [], 0, 0, true), 0, true, true, Some(1));
    var s1 := Two(a, Task(Idle, [], 0, 0, true), 1, true, true, Some(1));
    var s2 := Two(a, Task(GuardRead(Outer(false)), [], 0, 0, true), 1, true, true, Some(1));
    var s3 := Two(a, Task(GuardCli(Outer(false)), [], 0, 0, true), 1, true, true, Some(1));
    var s4 := Two(a, Task(Idle, [true], 0, 0, true), 1, false, true, Some(1));
    MoveOne(a, s1.tasks[1], 1, true, true, Some(1), s2.tasks[1]);
    MoveOne(a, s2.tasks[1], 1, true, true, Some(1), s3.tasks[1]);
    MoveOne(a, s3.tasks[1], 1, false, true, Some(1), s4.tasks[1]);
    MoveOne(a, s4.tasks[1], 1, false, true, Some(1), Task(GuardRead(ForLock), [true], 2, 0, true));
    assert [] + [true] == [true];
    FirstAction(s4, BeginMap(2), []);
    FirstAction(s3, Run, [BeginMap(2)] + []);
    FirstAction(s2, Run, [Run] + ([BeginMap(2)] + []));
    FirstAction(s1, BeginOuter, [Run] + ([Run] + ([BeginMap(2)] + [])));
    actions := [Switch(1)] + ([BeginOuter] + ([Run] + ([Run] + ([BeginMap(2)] + []))));
    FirstAction(s0, Switch(1), [BeginOuter] + ([Run] + ([Run] + ([BeginMap(2)] + []))));
  }

  /** A stuck state is reached by two tasks that each construct a page map guard, the second under an
    interrupt guard. */
  lemma StuckIsReached() returns (s: State, actions: seq<Action>)
    ensures Initial(s) && RunActions(s, actions).Some?
    ensures Stuck(RunActions(s, actions).value, 1)
  {
    var idle := Task(Idle, [], 0, 0, true);
    s := Two(idle, idle, 0, true, false, None);
    var locks := FirstLocks(idle);
    var maps := FirstMaps(idle);
    var asks := SecondAsks(Task(Inside, [], 1, 0, true));
    RunAppend(s, locks, maps);
    RunAppend(s, locks + maps, asks);
    actions := locks + maps + asks;
  }

  lemma HandlerAsks(a: Task) returns (actions: seq<Action>)
    ensures RunActions(Two(a, Task(Idle, [], 0, 0, false), 0, true, true, Some(1)), actions)
         == Some(Two(a, Task(GuardRead(ForLock), [], 2, 0, false), 1, false, true, Some(1)))
  {
    var s0 := Two(a, Task(Idle, [], 0, 0, false), 0, true, true, Some(1));
    var s1 := Two(a, Task(Idle, [], 0, 0, false), 1, false, true, Some(1));
    MoveOne(a, s1.tasks[1], 1, false, true, Some(1), Task(GuardRead(ForLock), [], 2, 0, false));
    FirstAction(s1, BeginMap(2), []);
    actions := [Switch(1)] + ([BeginMap(2)] + []);
    FirstAction(s0, Switch(1), [BeginMap(2)] + []);
  }

  /** Or by a task and a handler that interrupts it inside its page map guard and constructs another one. */
  lemma HandlerGetsStuck() returns (s: State, actions: seq<Action>)
    ensures Initial(s) && RunActions(s, actions).Some?
    ensures Stuck(RunActions(s, actions).value, 1) && RunActions(s, actions).value.tasks[1].guards == []
  {
    var handler := Task(Idle, [], 0, 0, false);
    s := Two(Task(Idle, [], 0, 0, true), handler, 0, true, false, None);
    var locks := FirstLocks(handler);
    var maps := FirstMaps(handler);
    var asks := HandlerAsks(Task(Inside, [], 1, 0, true));
    RunAppend(s, locks, maps);
    RunAppend(s, locks + maps, asks);
    actions := locks + maps + asks;
  }
}
