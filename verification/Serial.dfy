/** The serial driver of kernel/x86/tty/serial.cpp over its ring buffer.

  The line-status register is represented by the answers it gives: each transmit attempt, whether made
  by the interrupt handler or by a polling loop, is told if the transmitter is ready. `wire` is what
  the device has been sent, in order. */
module SerialDriver {
  import opened Memory
  import opened Wrappers
  import opened RingBuffers

  const FIFO_SIZE := 16

  // ---------- The driver as functions on contents and wire ----------

  datatype Line = Line(contents: seq<byte>, wire: seq<byte>)

  /** One call of transmit. */
  function Transmit(l: Line, ready: bool): Line {
    var k := Min(FIFO_SIZE, |l.contents|);
    if ready then Line(l.contents[k..], l.wire + l.contents[..k]) else l
  }

  /** Transmit attempts until `room` bytes are free; returns how many of the answers were used. */
  function Await(l: Line, capacity: nat, room: nat, polls: seq<bool>): (r: (Line, nat))
    ensures r.1 <= |polls|
    decreases |polls|
  {
    if capacity - |l.contents| >= room || polls == [] then (l, 0)
    else
      var (l', n) := Await(Transmit(l, polls[0]), capacity, room, polls[1..]);
      (l', n + 1)
  }

  /** Any number of transmit attempts. */
  function Transmits(l: Line, readies: seq<bool>): Line
    decreases |readies|
  {
    if readies == [] then l else Transmits(Transmit(l, readies[0]), readies[1..])
  }

  datatype WriteResult = WriteResult(line: Line, accepted: seq<byte>)

  /** write: what fits, then, once there is room for all of it, the rest. When the answers run out
    first, the call is still waiting and the rest has not been accepted. `late` are interrupts that
    come between the end of the waiting loop and the moment interrupts are off again. */
  function WriteLine(l: Line, capacity: nat, data: seq<byte>, polls: seq<bool>, late: seq<bool>): WriteResult
    requires |l.contents| <= capacity
  {
    var first := Fitting(data, |l.contents|, capacity);
    var l1 := l.(contents := l.contents + first);
    var rest := data[|first|..];
    var l2 := Await(l1, capacity, |rest|, polls).0;
    if rest == [] then WriteResult(l1, data)
    else if capacity - |l2.contents| >= |rest| then
      var l3 := Transmits(l2, late);
      WriteResult(l3.(contents := l3.contents + rest), data)
    else WriteResult(l2, first)
  }

  function ReadyCount(polls: seq<bool>): nat {
    if polls == [] then 0 else (if polls[0] then 1 else 0) + ReadyCount(polls[1..])
  }

  /** Every line state keeps wire followed by contents. */
  lemma TransmitConserves(l: Line, ready: bool)
    ensures Transmit(l, ready).wire + Transmit(l, ready).contents == l.wire + l.contents
    ensures |Transmit(l, ready).contents| == if ready then Max(0, |l.contents| - FIFO_SIZE) else |l.contents|
  {
    var k := Min(FIFO_SIZE, |l.contents|);
    assert l.contents[..k] + l.contents[k..] == l.contents;
    assert (l.wire + l.contents[..k]) + l.contents[k..] == l.wire + (l.contents[..k] + l.contents[k..]);
  }

  lemma {:induction false} TransmitsConserve(l: Line, readies: seq<bool>)
    ensures var l' := Transmits(l, readies);
            l'.wire + l'.contents == l.wire + l.contents && |l'.contents| <= |l.contents|
    decreases |readies|
  {
    if readies != [] {
      TransmitConserves(l, readies[0]);
      TransmitsConserve(Transmit(l, readies[0]), readies[1..]);
    }
  }

  lemma {:induction false} AwaitConserves(l: Line, capacity: nat, room: nat, polls: seq<bool>)
    ensures var l' := Await(l, capacity, room, polls).0;
            l'.wire + l'.contents == l.wire + l.contents && |l'.contents| <= |l.contents|
    decreases |polls|
  {
    if capacity - |l.contents| < room && polls != [] {
      TransmitConserves(l, polls[0]);
      AwaitConserves(Transmit(l, polls[0]), capacity, room, polls[1..]);
    }
  }

  /** Waiting ends exactly when the room can exist at all and the transmitter was ready often enough
    to make it, sixteen bytes at a time. */
  lemma {:induction false} AwaitEnds(l: Line, capacity: nat, room: nat, polls: seq<bool>)
    requires |l.contents| <= capacity
    ensures capacity - |Await(l, capacity, room, polls).0.contents| >= room <==>
            room <= capacity && |l.contents| - FIFO_SIZE * ReadyCount(polls) <= capacity - room
    decreases |polls|
  {
    if capacity - |l.contents| < room && polls != [] {
      TransmitConserves(l, polls[0]);
      AwaitEnds(Transmit(l, polls[0]), capacity, room, polls[1..]);
    }
  }

  /** A write completes exactly when all fits at once, or the leftover is at most the whole buffer
    and the transmitter gets ready at least ceil(leftover / 16) times. */
  lemma WriteCompletes(l: Line, capacity: nat, data: seq<byte>, polls: seq<bool>, late: seq<bool>)
    requires |l.contents| <= capacity
    ensures var leftover := |data| - Min(|data|, capacity - |l.contents|);
            WriteLine(l, capacity, data, polls, late).accepted == data <==>
              leftover == 0 || (leftover <= capacity && FIFO_SIZE * ReadyCount(polls) >= leftover)
  {
    var first := Fitting(data, |l.contents|, capacity);
    AwaitEnds(l.(contents := l.contents + first), capacity, |data| - |first|, polls);
  }

  lemma WriteConserves(l: Line, capacity: nat, data: seq<byte>, polls: seq<bool>, late: seq<bool>)
    requires |l.contents| <= capacity
    ensures var r := WriteLine(l, capacity, data, polls, late);
            && r.line.wire + r.line.contents == l.wire + l.contents + r.accepted
            && |r.line.contents| <= capacity && r.accepted <= data
  {
    var first := Fitting(data, |l.contents|, capacity);
    var l1 := l.(contents := l.contents + first);
    var rest := data[|first|..];
    AwaitConserves(l1, capacity, |rest|, polls);
    var l2 := Await(l1, capacity, |rest|, polls).0;
    TransmitsConserve(l2, late);
    var l3 := Transmits(l2, late);
    assert first + rest == data;
    assert l1.wire + l1.contents == l.wire + l.contents + first;
    assert l3.wire + (l3.contents + rest) == (l3.wire + l3.contents) + rest;
    assert l.wire + l.contents + first + rest == l.wire + l.contents + (first + rest);
  }

  // ---------- Runs ----------

  /** A call of write with the answers it sees while waiting and after, or an interrupt between calls. */
  datatype SerialOp = Submit(data: seq<byte>, polls: seq<bool>, late: seq<bool>) | Interrupt(ready: bool)

  datatype History = History(line: Line, accepted: seq<byte>)

  function StepSerial(capacity: nat, h: History, op: SerialOp): History
    requires |h.line.contents| <= capacity
    ensures |StepSerial(capacity, h, op).line.contents| <= capacity
  {
    match op
    case Submit(data, polls, late) =>
      WriteConserves(h.line, capacity, data, polls, late);
      var r := WriteLine(h.line, capacity, data, polls, late);
      History(r.line, h.accepted + r.accepted)
    case Interrupt(ready) => h.(line := Transmit(h.line, ready))
  }

  function RunSerial(capacity: nat, h: History, ops: seq<SerialOp>): History
    requires |h.line.contents| <= capacity
    decreases |ops|
  {
    if ops == [] then h else RunSerial(capacity, StepSerial(capacity, h, ops[0]), ops[1..])
  }

  /** Over every run, the bytes sent followed by the bytes buffered are the bytes accepted, in order. */
  lemma {:induction false} SerialConserves(capacity: nat, h: History, ops: seq<SerialOp>)
    requires |h.line.contents| <= capacity && h.line.wire + h.line.contents == h.accepted
    ensures var r := RunSerial(capacity, h, ops);
            r.line.wire + r.line.contents == r.accepted && |r.line.contents| <= capacity
    decreases |ops|
  {
    if ops != [] {
      match ops[0] {
        case Submit(data, polls, late) => WriteConserves(h.line, capacity, data, polls, late);
        case Interrupt(ready) => TransmitConserves(h.line, ready);
      }
      SerialConserves(capacity, StepSerial(capacity, h, ops[0]), ops[1..]);
    }
  }

  /** All data handed to `write` in a run. */
  function Submitted(ops: seq<SerialOp>): seq<byte> {
    if ops == [] then [] else (if ops[0].Submit? then ops[0].data else []) + Submitted(ops[1..])
  }

  /** Each write of the run completes. */
  predicate AllComplete(capacity: nat, h: History, ops: seq<SerialOp>)
    requires |h.line.contents| <= capacity
    decreases |ops|
  {
    ops != [] ==>
      && (ops[0].Submit? ==>
            WriteLine(h.line, capacity, ops[0].data, ops[0].polls, ops[0].late).accepted == ops[0].data)
      && AllComplete(capacity, StepSerial(capacity, h, ops[0]), ops[1..])
  }

  /** When every write completes, nothing submitted is lost, duplicated or reordered. */
  lemma {:induction false} CompleteRunsLoseNothing(capacity: nat, h: History, ops: seq<SerialOp>)
    requires |h.line.contents| <= capacity && h.line.wire + h.line.contents == h.accepted
    requires AllComplete(capacity, h, ops)
    ensures var r := RunSerial(capacity, h, ops);
            r.line.wire + r.line.contents == h.accepted + Submitted(ops)
    decreases |ops|
  {
    if ops == [] {
      assert h.accepted + Submitted(ops) == h.accepted;
    } else {
      var h' := StepSerial(capacity, h, ops[0]);
      match ops[0] {
        case Submit(data, polls, late) => WriteConserves(h.line, capacity, data, polls, late);
        case Interrupt(ready) => TransmitConserves(h.line, ready);
      }
      CompleteRunsLoseNothing(capacity, h', ops[1..]);
      var now := if ops[0].Submit? then ops[0].data else [];
      assert h'.accepted == h.accepted + now;
      assert h.accepted + now + Submitted(ops[1..]) == h.accepted + (now + Submitted(ops[1..]));
    }
  }

  // ---------- The driver ----------

  class Serial {
    const ring: RingBuffer
    var wire: seq<byte>
    var interrupts: bool

    ghost predicate Valid()
      reads this, ring
    {
      ring.Valid()
    }

    ghost function State(): Line
      requires Valid()
      reads this, ring, ring.buffer
    {
      Line(ring.Contents(), wire)
    }

    constructor ()
      ensures Valid() && fresh(ring) && fresh(ring.buffer) && ring.capacity == 64 * 16
      ensures State() == Line([], [])
    {
      ring := new RingBuffer(64 * 16);
      wire := [];
      interrupts := true;
    }

    /** transmit, under its own interrupt guard. */
    method TransmitStep(ready: bool)
      requires Valid()
      modifies this`wire, this`interrupts, ring
      ensures Valid() && interrupts == old(interrupts)
      ensures State() == Transmit(old(State()), ready)
    {
      var wasEnabled := interrupts;
      interrupts := false;
      if ready {
        var sendBuffer := new byte[FIFO_SIZE](_ => 0);
        var toSend := ring.Take(sendBuffer, FIFO_SIZE);
        assert sendBuffer[..][..toSend] == old(ring.Contents())[..toSend];
        wire := wire + sendBuffer[..toSend];
      }
      if wasEnabled {
        interrupts := true;
      }
    }

    /** The waiting loops of write: polled when the kernel panics, otherwise with interrupts on, when
      each serial interrupt transmits. */
    method WaitForRoom(room: nat, polls: seq<bool>) returns (used: nat)
      requires Valid()
      modifies this`wire, this`interrupts, ring
      ensures Valid() && interrupts == old(interrupts)
      ensures (State(), used) == Await(old(State()), ring.capacity, room, polls)
    {
      used := 0;
      while ring.RemainingSpace() < room && used < |polls|
        invariant Valid() && used <= |polls| && interrupts == old(interrupts)
        invariant Await(old(State()), ring.capacity, room, polls)
               == (Await(State(), ring.capacity, room, polls[used..]).0,
                   Await(State(), ring.capacity, room, polls[used..]).1 + used)
        decreases |polls| - used
      {
        assert polls[used..][0] == polls[used] && polls[used..][1..] == polls[used + 1..];
        TransmitStep(polls[used]);
        used := used + 1;
      }
    }

    /** Serial interrupts, each of which transmits. */
    method TakeInterrupts(readies: seq<bool>)
      requires Valid()
      modifies this`wire, this`interrupts, ring
      ensures Valid() && interrupts == old(interrupts)
      ensures State() == Transmits(old(State()), readies)
    {
      var i := 0;
      while i < |readies|
        invariant Valid() && i <= |readies| && interrupts == old(interrupts)
        invariant Transmits(State(), readies[i..]) == Transmits(old(State()), readies)
      {
        assert readies[i..][0] == readies[i] && readies[i..][1..] == readies[i + 1..];
        TransmitStep(readies[i]);
        i := i + 1;
      }
    }

    /** The wait for room, and the second write into the ring buffer, which takes all of `rest`. */
    method WriteRest(rest: seq<byte>, polls: seq<bool>, late: seq<bool>) returns (done: bool)
      requires Valid()
      modifies this`wire, this`interrupts, ring, ring.buffer
      ensures Valid()
      ensures var l := Await(old(State()), ring.capacity, |rest|, polls).0;
              done == (ring.capacity - |l.contents| >= |rest|)
      ensures var l := Await(old(State()), ring.capacity, |rest|, polls).0;
              if done then var l' := Transmits(l, late); State() == l'.(contents := l'.contents + rest)
              else State() == l
    {
      var _ := WaitForRoom(|rest|, polls);
      if ring.RemainingSpace() < |rest| {
        return false;
      }
      TransmitsConserve(State(), late);
      TakeInterrupts(late);
      var writtenAgain := ring.Write(rest);
      assert writtenAgain == |rest|;
      done := true;
    }

    /** write; the result says whether the call came back, that is, accepted all of `data`. In a panic
      interrupts stay off. */
    method Write(data: seq<byte>, inPanic: bool, polls: seq<bool>, late: seq<bool>) returns (done: bool)
      requires Valid()
      modifies this`wire, this`interrupts, ring, ring.buffer
      ensures Valid()
      ensures done ==> interrupts == old(interrupts)
      ensures var r := WriteLine(old(State()), ring.capacity, data, polls, if inPanic then [] else late);
              State() == r.line && (done <==> r.accepted == data)
    {
      var wasEnabled := interrupts;
      interrupts := false;
      var written := ring.Write(data);
      done := true;
      if written < |data| {
        if !inPanic {
          interrupts := true;
        }
        done := WriteRest(data[written..], polls, if inPanic then [] else late);
        if !done {
          return;
        }
        interrupts := false;
      }
      if wasEnabled {
        interrupts := true;
      }
    }

    /** flush: transmit until the buffer is empty. It comes back exactly when the transmitter is ready
      often enough, and then everything buffered has been sent. */
    method Flush(polls: seq<bool>) returns (drained: bool)
      requires Valid()
      modifies this`wire, this`interrupts, ring
      ensures Valid() && interrupts == old(interrupts)
      ensures drained <==> FIFO_SIZE * ReadyCount(polls) >= |old(State()).contents|
      ensures drained ==> State() == Line([], old(State()).wire + old(State()).contents)
      ensures State().wire + State().contents == old(State()).wire + old(State()).contents
    {
      AwaitEnds(State(), ring.capacity, ring.capacity, polls);
      AwaitConserves(State(), ring.capacity, ring.capacity, polls);
      var _ := WaitForRoom(ring.capacity, polls);
      drained := ring.currentSize == 0;
    }
  }
}
