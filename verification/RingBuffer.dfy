/** The ring buffer of bustd/ringbuffer.hpp: wrap-around storage that behaves as a bounded FIFO. */
module RingBuffers {
  import opened Memory
  import opened Wrappers

  // ---------- The bounded FIFO ----------

  /** The part of `data` that fits behind `held` bytes in a FIFO of `capacity` bytes. */
  function Fitting(data: seq<byte>, held: nat, capacity: nat): (r: seq<byte>)
    requires held <= capacity
    ensures r <= data && |r| == Min(|data|, capacity - held)
  {
    data[..Min(|data|, capacity - held)]
  }

  datatype FifoOp = Write(data: seq<byte>) | Take(upto: nat) | Drop(n: nat)

  /** The contents, all bytes accepted and all bytes removed so far. */
  datatype Fifo = Fifo(contents: seq<byte>, accepted: seq<byte>, removed: seq<byte>)

  function StepFifo(capacity: nat, f: Fifo, op: FifoOp): Fifo
    requires |f.contents| <= capacity
  {
    match op
    case Write(data) =>
      var w := Fitting(data, |f.contents|, capacity);
      f.(contents := f.contents + w, accepted := f.accepted + w)
    case Take(n) =>
      var k := Min(n, |f.contents|);
      f.(contents := f.contents[k..], removed := f.removed + f.contents[..k])
    case Drop(n) =>
      var k := Min(n, |f.contents|);
      f.(contents := f.contents[k..], removed := f.removed + f.contents[..k])
  }

  function RunFifo(capacity: nat, f: Fifo, ops: seq<FifoOp>): Fifo
    requires |f.contents| <= capacity
    decreases |ops|
  {
    if ops == [] then f else RunFifo(capacity, StepFifo(capacity, f, ops[0]), ops[1..])
  }

  /** Over every run the capacity is respected, and what came out followed by what is still inside is
    what went in, in order. */
  lemma {:induction false} FifoConserves(capacity: nat, f: Fifo, ops: seq<FifoOp>)
    requires |f.contents| <= capacity && f.removed + f.contents == f.accepted
    ensures var g := RunFifo(capacity, f, ops);
            |g.contents| <= capacity && g.removed + g.contents == g.accepted
    decreases |ops|
  {
    if ops != [] {
      var g := StepFifo(capacity, f, ops[0]);
      match ops[0] {
        case Write(data) =>
          var w := Fitting(data, |f.contents|, capacity);
          assert f.removed + (f.contents + w) == (f.removed + f.contents) + w;
        case Take(n) =>
          var k := Min(n, |f.contents|);
          assert f.contents[..k] + f.contents[k..] == f.contents;
          assert (f.removed + f.contents[..k]) + f.contents[k..] == f.removed + (f.contents[..k] + f.contents[k..]);
        case Drop(n) =>
          var k := Min(n, |f.contents|);
          assert f.contents[..k] + f.contents[k..] == f.contents;
          assert (f.removed + f.contents[..k]) + f.contents[k..] == f.removed + (f.contents[..k] + f.contents[k..]);
      }
      FifoConserves(capacity, g, ops[1..]);
    }
  }

  // ---------- Wrap-around storage ----------

  /** The `size` bytes from `start` on, continuing at the front of the store. */
  function Unwrap(store: seq<byte>, start: nat, size: nat): (r: seq<byte>)
    requires start < |store| && size <= |store|
    ensures |r| == size
  {
    seq(size, k requires 0 <= k < size => store[if start + k < |store| then start + k else start + k - |store|])
  }

  // One lemma for each branch of write: where the new bytes land, they extend the contents.

  lemma AppendDirect(store: seq<byte>, start: nat, size: nat, w: seq<byte>)
    requires start < |store| && start + size + |w| <= |store|
    ensures Unwrap(Overlay(store, start + size, w), start, size + |w|) == Unwrap(store, start, size) + w
  {
  }

  lemma AppendSplit(store: seq<byte>, start: nat, size: nat, w: seq<byte>)
    requires start < |store| && start + size < |store| < start + size + |w| && size + |w| <= |store|
    ensures var m := |store| - (start + size);
            Unwrap(Overlay(Overlay(store, start + size, w[..m]), 0, w[m..]), start, size + |w|)
            == Unwrap(store, start, size) + w
  {
  }

  lemma AppendWrapped(store: seq<byte>, start: nat, size: nat, w: seq<byte>)
    requires start < |store| <= start + size && size + |w| <= |store|
    ensures Unwrap(Overlay(store, start + size - |store|, w), start, size + |w|) == Unwrap(store, start, size) + w
  {
  }

  /** The two pieces read copies are the oldest bytes. */
  lemma ReadSplit(store: seq<byte>, start: nat, size: nat, n: nat, out: seq<byte>)
    requires start < |store| && |store| - start <= n <= size <= |store| && n <= |out|
    ensures var m := |store| - start;
            Overlay(Overlay(out, 0, store[start..start + m]), m, store[..n - m])
            == Overlay(out, 0, Unwrap(store, start, size)[..n])
  {
  }

  class RingBuffer {
    const capacity: nat
    var bufferStart: nat
    var currentSize: nat
    const buffer: array<byte>

    ghost predicate Valid()
      reads this
    {
      buffer.Length == capacity > 0 && bufferStart < capacity && currentSize <= capacity
    }

    ghost function Contents(): (c: seq<byte>)
      requires Valid()
      reads this, buffer
      ensures |c| == currentSize <= capacity
    {
      Unwrap(buffer[..], bufferStart, currentSize)
    }

    constructor (capacity: nat)
      requires capacity > 0
      ensures Valid() && fresh(buffer) && this.capacity == capacity && Contents() == []
    {
      this.capacity := capacity;
      bufferStart, currentSize := 0, 0;
      buffer := new byte[capacity](_ => 0);
    }

    function RemainingSpace(): nat
      requires Valid()
      reads this
    {
      capacity - currentSize
    }

    /** Appends the longest prefix that fits and says how long it is. */
    method Write(data: seq<byte>) returns (written: nat)
      requires Valid()
      modifies this`currentSize, buffer
      ensures Valid()
      ensures Contents() == old(Contents()) + Fitting(data, |old(Contents())|, capacity)
      ensures written == Min(|data|, capacity - |old(Contents())|)
    {
      var toWrite := Min(|data|, RemainingSpace());
      CopyBehind(data[..toWrite]);
      currentSize := currentSize + toWrite;
      written := toWrite;
    }

    /** The three branches of `write`: store `w`, which fits, behind the contents. */
    method CopyBehind(w: seq<byte>)
      requires Valid() && |w| <= capacity - currentSize
      modifies buffer
      ensures Unwrap(buffer[..], bufferStart, currentSize + |w|)
           == Unwrap(old(buffer[..]), bufferStart, currentSize) + w
    {
      var appendOffset := bufferStart + currentSize;
      if appendOffset + |w| <= capacity {
        AppendDirect(buffer[..], bufferStart, currentSize, w);
        CopyAll(buffer, appendOffset, w);
      } else if appendOffset < capacity {
        CopyAcrossEnd(w);
      } else {
        AppendWrapped(buffer[..], bufferStart, currentSize, w);
        CopyAll(buffer, appendOffset - capacity, w);
      }
    }

    method CopyAcrossEnd(w: seq<byte>)
      requires Valid() && |w| <= capacity - currentSize
      requires bufferStart + currentSize < capacity < bufferStart + currentSize + |w|
      modifies buffer
      ensures Unwrap(buffer[..], bufferStart, currentSize + |w|)
           == Unwrap(old(buffer[..]), bufferStart, currentSize) + w
    {
      var appendOffset := bufferStart + currentSize;
      var marginToEnd := capacity - appendOffset;
      AppendSplit(buffer[..], bufferStart, currentSize, w);
      CopyAll(buffer, appendOffset, w[..marginToEnd]);
      CopyAll(buffer, 0, w[marginToEnd..]);
    }

    /** Copies the oldest bytes into `out` and leaves the buffer as it is. */
    method Read(out: array<byte>, length: nat) returns (count: nat)
      requires Valid() && out != buffer && length <= out.Length
      modifies out
      ensures Valid() && Contents() == old(Contents())
      ensures count == Min(length, |Contents()|)
      ensures out[..] == Overlay(old(out[..]), 0, Contents()[..count])
    {
      var toRead := Min(length, currentSize);
      if toRead == 0 {
        return 0;
      }
      var margin := capacity - bufferStart;
      if margin > toRead {
        assert buffer[bufferStart..bufferStart + toRead] == Contents()[..toRead];
        CopyAll(out, 0, buffer[bufferStart..bufferStart + toRead]);
      } else {
        ReadSplit(buffer[..], bufferStart, currentSize, toRead, out[..]);
        CopyAll(out, 0, buffer[bufferStart..bufferStart + margin]);
        CopyAll(out, margin, buffer[..toRead - margin]);
      }
      count := toRead;
    }

    method Take(out: array<byte>, upto: nat) returns (count: nat)
      requires Valid() && out != buffer && upto <= out.Length
      modifies this`bufferStart, this`currentSize, out
      ensures Valid()
      ensures count == Min(upto, |old(Contents())|)
      ensures out[..] == Overlay(old(out[..]), 0, old(Contents())[..count])
      ensures Contents() == old(Contents())[count..]
    {
      count := Read(out, upto);
      var _ := Drop(count);
    }

    /** Forgets the oldest `n` bytes. */
    method Drop(n: nat) returns (dropped: nat)
      requires Valid()
      modifies this`bufferStart, this`currentSize
      ensures Valid()
      ensures dropped == Min(n, |old(Contents())|)
      ensures Contents() == old(Contents())[dropped..]
    {
      ghost var was := Contents();
      var toDrop := Min(n, currentSize);
      currentSize := currentSize - toDrop;
      bufferStart := bufferStart + toDrop;
      if bufferStart >= capacity {
        bufferStart := bufferStart - capacity;
      }
      dropped := toDrop;
      assert Contents() == was[toDrop..];
    }

    method Clear()
      requires Valid()
      modifies this`bufferStart, this`currentSize
      ensures Valid() && Contents() == []
    {
      var _ := Drop(currentSize);
    }

    /** A byte pushed into a full buffer is lost. */
    method Push(b: byte)
      requires Valid()
      modifies this`currentSize, buffer
      ensures Valid()
      ensures Contents() == if |old(Contents())| == capacity then old(Contents()) else old(Contents()) + [b]
    {
      var _ := Write([b]);
    }

    /** The oldest byte; None is the failed assertion that there is one. */
    method Pop() returns (b: Option<byte>)
      requires Valid()
      modifies this`bufferStart, this`currentSize
      ensures Valid()
      ensures if old(Contents()) == [] then b == None && Contents() == []
              else b.Some? && [b.value] + Contents() == old(Contents())
    {
      var cell := new byte[1];
      var count := Take(cell, 1);
      if count != 1 {
        return None;
      }
      b := Some(cell[0]);
      assert cell[..][0] == b.value;
    }

    /** Two views of the store, valid until the next write; together they are the contents. */
    method ReadNoCopy() returns (some: bool, first: seq<byte>, second: seq<byte>)
      requires Valid()
      ensures some <==> Contents() != []
      ensures first + second == Contents()
    {
      first, second := [], [];
      if currentSize == 0 {
        return false, first, second;
      }
      some := true;
      var margin := capacity - bufferStart;
      first := buffer[bufferStart..bufferStart + Min(margin, currentSize)];
      if currentSize > margin {
        second := buffer[..currentSize - margin];
      }
    }
  }
}
