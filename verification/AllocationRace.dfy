/** allocate_physical_page of kernel/physicalmalloc.cpp as interleaved steps of several tasks: a bit is tested in
  one step and set in a later one, with no lock around the two. */
module AllocationRace {
  import opened Wrappers
  import opened PhysicalMalloc

  datatype Pc =
    | Idle
    | Scan(i: nat)    // about to test bit i
    | Found(i: nat)   // bit i was clear: about to set it and return its frame

  /** `taken` is the bitmap, `handed` the frames returned so far, in order. */
  datatype State = State(tasks: seq<Pc>, current: nat, taken: set<nat>, handed: seq<nat>)

  datatype Action = Switch(to: nat) | Call | Run

  function With(s: State, pc: Pc): State
    requires s.current < |s.tasks|
  {
    s.(tasks := s.tasks[s.current := pc])
  }

  /** None when the action is not possible. `preemptible` says whether a task can lose the processor between
    test and set. */
  function Next(s: State, a: Action, preemptible: bool): Option<State>
    requires s.current < |s.tasks|
  {
    var pc := s.tasks[s.current];
    match a
    case Switch(to) => if to < |s.tasks| && (preemptible || !pc.Found?) then Some(s.(current := to)) else None
    case Call => if pc.Idle? then Some(With(s, Scan(0))) else None
    case Run =>
      match pc
      case Idle => None
      case Scan(i) => if i >= FRAME_COUNT then None else Some(With(s, if i in s.taken then Scan(i + 1) else Found(i)))
      case Found(i) => Some(With(s, Idle).(taken := s.taken + {i}, handed := s.handed + [i]))
  }

  function RunActions(s: State, actions: seq<Action>, preemptible: bool): Option<State>
    requires s.current < |s.tasks|
    decreases |actions|
  {
    if actions == [] then Some(s)
    else match Next(s, actions[0], preemptible)
      case None => None
      case Some(s') => RunActions(s', actions[1..], preemptible)
  }

  predicate Initial(s: State) {
    && s.current < |s.tasks| && s.taken == {} && s.handed == []
    && forall k :: 0 <= k < |s.tasks| ==> s.tasks[k] == Idle
  }

  /** No frame was returned twice. */
  ghost predicate Distinct(handed: seq<nat>) {
    forall j, k :: 0 <= j < k < |handed| ==> handed[j] != handed[k]
  }

  /** Only the running task is between test and set, and the frames returned are those of the set bits. */
  ghost predicate Orderly(s: State) {
    && s.current < |s.tasks| && Distinct(s.handed)
    && (forall k :: 0 <= k < |s.handed| ==> s.handed[k] in s.taken)
    && (forall k :: 0 <= k < |s.tasks| && s.tasks[k].Found? ==> k == s.current && s.tasks[k].i !in s.taken)
  }

  lemma NextKeepsOrderly(s: State, a: Action)
    requires Orderly(s) && Next(s, a, false).Some?
    ensures Orderly(Next(s, a, false).value)
  {
  }

  lemma {:induction false} RunKeepsOrderly(s: State, actions: seq<Action>)
    requires Orderly(s) && RunActions(s, actions, false).Some?
    ensures Orderly(RunActions(s, actions, false).value)
    decreases |actions|
  {
    if actions != [] {
      NextKeepsOrderly(s, actions[0]);
      RunKeepsOrderly(Next(s, actions[0], false).value, actions[1..]);
    }
  }

  /** The first action, for runs written out. */
  lemma FirstAction(s: State, a: Action, rest: seq<Action>)
    requires s.current < |s.tasks| && Next(s, a, true).Some?
    ensures RunActions(s, [a] + rest, true) == RunActions(Next(s, a, true).value, rest, true)
  {
    assert ([a] + rest)[0] == a && ([a] + rest)[1..] == rest;
  }

  lemma {:induction false} RunAppend(s: State, a: seq<Action>, b: seq<Action>)
    requires s.current < |s.tasks| && RunActions(s, a, true).Some?
    ensures var r := RunActions(s, a, true).value;
            r.current < |r.tasks| && RunActions(s, a + b, true) == RunActions(r, b, true)
    decreases |a|
  {
    if a == [] {
      assert a + b == b;
    } else {
      assert (a + b)[0] == a[0] && (a + b)[1..] == a[1..] + b;
      RunAppend(Next(s, a[0], true).value, a[1..], b);
    }
  }

  /** The running task, at `pc` on its way to bit `i`, comes to it over bits that are set. */
  lemma {:induction false} ScansToFree(s: State, from: nat, i: nat) returns (actions: seq<Action>)
    requires s.current < |s.tasks| && s.tasks[s.current] == Scan(from) && from <= i < FRAME_COUNT && i !in s.taken
    requires forall k :: from <= k < i ==> k in s.taken
    ensures RunActions(s, actions, true) == Some(With(s, Found(i)))
    decreases i - from
  {
    var s' := Next(s, Run, true).value;
    var rest := [];
    if from < i {
      rest := ScansToFree(s', from + 1, i);
      assert With(s', Found(i)) == With(s, Found(i));
    }
    actions := [Run] + rest;
    FirstAction(s, Run, rest);
  }

  /** Every bit below the one a task is at is set, and every set bit's frame has been returned. */
  ghost predicate Filled(s: State) {
    && s.current < |s.tasks|
    && (forall f :: f in s.taken ==> f in s.handed)
    && (forall k :: 0 <= k < |s.tasks| ==> FilledBelow(s.tasks[k], s.taken))
  }

  ghost predicate FilledBelow(pc: Pc, taken: set<nat>) {
    && (!pc.Idle? ==> forall j :: 0 <= j < pc.i ==> j in taken)
    && (pc.Found? ==> pc.i < FRAME_COUNT)
  }

  lemma NextKeepsFilled(s: State, a: Action)
    requires Filled(s) && Next(s, a, true).Some?
    ensures Filled(Next(s, a, true).value)
  {
    var s' := Next(s, a, true).value;
    forall k | 0 <= k < |s'.tasks| ensures FilledBelow(s'.tasks[k], s'.taken) {
      assert FilledBelow(s.tasks[k], s.taken);
    }
  }

  lemma {:induction false} RunKeepsFilled(s: State, actions: seq<Action>)
    requires Filled(s) && RunActions(s, actions, true).Some?
    ensures Filled(RunActions(s, actions, true).value)
    decreases |actions|
  {
    if actions != [] {
      NextKeepsFilled(s, actions[0]);
      RunKeepsFilled(Next(s, actions[0], true).value, actions[1..]);
    }
  }

  /** The current task, at a bit whose frame has been returned, returns it again. */
  lemma SetsAgain(s: State, i: nat)
    requires s.current < |s.tasks| && s.tasks[s.current] == Found(i) && i in s.handed
    ensures RunActions(s, [Run], true).Some? && !Distinct(RunActions(s, [Run], true).value.handed)
  {
    FirstAction(s, Run, []);
    assert [Run] + [] == [Run];
    var handed := s.handed + [i];
    var k :| 0 <= k < |s.handed| && s.handed[k] == i;
    assert handed[k] == handed[|s.handed|];
  }

  /** Task `q` runs while the current one is at a clear bit `i`, and returns the frame of it. */
  lemma OtherTakes(s: State, i: nat, q: nat) returns (actions: seq<Action>, r: State)
    requires Filled(s) && s.tasks[s.current] == Found(i) && i !in s.taken
    requires q < |s.tasks| && q != s.current && s.tasks[q] == Idle
    ensures RunActions(s, actions, true) == Some(r)
    ensures r.current == s.current < |r.tasks| && r.tasks[s.current] == Found(i) && i in r.handed
  {
    var p := s.current;
    var s1 := s.(current := q);
    var s2 := With(s1, Scan(0));
    assert FilledBelow(s.tasks[p], s.taken);
    var scan := ScansToFree(s2, 0, i);
    var s3 := With(s2, Found(i));
    var s4 := Next(s3, Run, true).value;
    r := s4.(current := p);
    FirstAction(s4, Switch(p), []);
    FirstAction(s3, Run, [Switch(p)] + []);
    RunAppend(s2, scan, [Run] + ([Switch(p)] + []));
    var rest := scan + ([Run] + ([Switch(p)] + []));
    FirstAction(s1, Call, rest);
    FirstAction(s, Switch(q), [Call] + rest);
    actions := [Switch(q)] + ([Call] + rest);
  }

  /** In whatever state a task has found its bit and loses the processor before it sets it: any task that is not
    allocating can bring about that a frame is returned twice. */
  lemma PreemptedFindCollides(s: State, before: seq<Action>, q: nat) returns (after: seq<Action>)
    requires Initial(s) && RunActions(s, before, true).Some?
    requires var r := RunActions(s, before, true).value;
             && r.current < |r.tasks| && r.tasks[r.current].Found?
             && q < |r.tasks| && q != r.current && r.tasks[q] == Idle
    ensures var r := RunActions(s, before, true).value;
            RunActions(r, after, true).Some? && !Distinct(RunActions(r, after, true).value.handed)
  {
    RunKeepsFilled(s, before);
    var r := RunActions(s, before, true).value;
    var i := r.tasks[r.current].i;
    if i in r.taken {
      after := [Run];
      SetsAgain(r, i);
    } else {
      var first, r1 := OtherTakes(r, i, q);
      SetsAgain(r1, i);
      RunAppend(r, first, [Run]);
      after := first + [Run];
    }
  }

  /** Two tasks or more: no run returns a frame twice if and only if no task can lose the processor between test
    and set. */
  lemma FramesDistinctIff(s: State, preemptible: bool)
    requires Initial(s) && |s.tasks| >= 2
    ensures (forall actions :: RunActions(s, actions, preemptible).Some? ==>
                                 Distinct(RunActions(s, actions, preemptible).value.handed))
            <==> !preemptible
  {
    if preemptible {
      var q := if s.current == 0 then 1 else 0;
      var scan := ScansToFree(With(s, Scan(0)), 0, 0);
      FirstAction(s, Call, scan);
      var after := PreemptedFindCollides(s, [Call] + scan, q);
      RunAppend(s, [Call] + scan, after);
    } else {
      forall actions | RunActions(s, actions, false).Some?
        ensures Distinct(RunActions(s, actions, false).value.handed)
      {
        RunKeepsOrderly(s, actions);
      }
    }
  }
}
