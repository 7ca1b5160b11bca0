/** Walking a directory: `for_each_entry_in_dir` of kernel/filesystem/ext2.cpp. */
module Ext2Directory {
  import opened Wrappers
  import opened Pata
  import opened Ext2

  const ENTRY_SIZE := 264

  datatype DirectoryEntry = DirectoryEntry(inode: u32, recLen: nat, nameLen: nat, fileType: nat, name: seq<byte>)

  function ParseEntry(s: seq<byte>): DirectoryEntry
    requires |s| == ENTRY_SIZE
  {
    DirectoryEntry(Le32(s, 0), Le16(s, 4), s[6], s[7], s[8..])
  }

  /** The record at byte `pos` of the disk; None is a failed assertion of the driver. */
  function EntryAt(v: Volume, pos: nat): Option<DirectoryEntry> {
    match BytesAt(v.disk, pos, ENTRY_SIZE)
    case None => None
    case Some(s) => Some(ParseEntry(s))
  }

  /** The records of a volume by byte position, positions being 32-bit sums. */
  type Records = nat -> Option<DirectoryEntry>

  function RecordsOf(v: Volume): Records {
    (pos: nat) => EntryAt(v, pos % U32)
  }

  method ReadDirectoryEntryFromDisk(v: Volume, pos: nat) returns (r: Option<DirectoryEntry>)
    requires v.Valid()
    ensures r == EntryAt(v, pos)
  {
    CopyInBoundsIff(pos, ENTRY_SIZE);
    var s := ReadBytes(v.disk, pos, ENTRY_SIZE);
    if s == None {
      return None;
    }
    r := Some(ParseEntry(s.value));
  }

  /** How a walk goes on: it may finish, panic, or loop for ever on a record of length zero. The
    entries are those called back with, in order. */
  datatype Outcome = Finished | Panicked | Hangs
  datatype Walk = Walk(entries: seq<DirectoryEntry>, outcome: Outcome)

  function WithEntry(e: DirectoryEntry, w: Walk): Walk {
    if e.inode != 0 then w.(entries := [e] + w.entries) else w
  }

  /** The walk of one block from offset `off` on. */
  function WalkBlock(at: Records, size: nat, start: nat, off: nat): Walk
    decreases size - off
  {
    match at(start + off)
    case None => Walk([], Panicked)
    case Some(e) =>
      if off >= size then Walk([], Finished)
      else if e.recLen == 0 then WithEntry(e, Walk([], Hangs))
      else WithEntry(e, WalkBlock(at, size, start, off + e.recLen))
  }

  function Append(a: Walk, b: Walk): Walk {
    Walk(a.entries + b.entries, b.outcome)
  }

  /** The walk of direct blocks `i` on, up to the first block at offset zero; an indirect block is not
    implemented and panics. */
  function WalkBlocks(v: Volume, directory: Inode, i: nat): Walk
    requires directory.Valid() && i <= DIRECT_BLOCKS
    decreases DIRECT_BLOCKS - i
  {
    if i == DIRECT_BLOCKS then Walk([], if directory.indirect != 0 then Panicked else Finished)
    else
      var start := BlockIndexToOffset(v, directory.direct[i]);
      if start == 0 then Walk([], Finished)
      else
        var w := WalkBlock(RecordsOf(v), v.blockSize, start, 0);
        if w.outcome == Finished then Append(w, WalkBlocks(v, directory, i + 1)) else w
  }

  /** The calls made so far, and after one more record. */
  function After(called: seq<DirectoryEntry>, e: DirectoryEntry): seq<DirectoryEntry> {
    if e.inode != 0 then called + [e] else called
  }

  /** One round of the inner loop against the walk that remains. */
  lemma BlockStep(at: Records, size: nat, start: nat, off: nat, called: seq<DirectoryEntry>, e: DirectoryEntry)
    requires at(start + off) == Some(e) && off < size
    ensures Append(Walk(called, Finished), WalkBlock(at, size, start, off))
         == if e.recLen == 0 then Walk(After(called, e), Hangs)
            else Append(Walk(After(called, e), Finished), WalkBlock(at, size, start, off + e.recLen))
  {
    var rest := if e.recLen == 0 then Walk([], Hangs) else WalkBlock(at, size, start, off + e.recLen);
    assert called + ([e] + rest.entries) == called + [e] + rest.entries;
    assert called + [e] + [] == called + [e] && called + [] == called;
  }

  lemma BlockEnd(at: Records, size: nat, start: nat, off: nat, called: seq<DirectoryEntry>)
    requires at(start + off) == None || off >= size
    ensures Append(Walk(called, Finished), WalkBlock(at, size, start, off))
         == Walk(called, if at(start + off) == None then Panicked else Finished)
  {
    assert called + [] == called;
  }

  /** One round of the outer loop. */
  lemma BlocksStep(v: Volume, directory: Inode, i: nat, w: Walk)
    requires directory.Valid() && i < DIRECT_BLOCKS && w.outcome == Finished
    ensures var start := BlockIndexToOffset(v, directory.direct[i]);
            Append(w, WalkBlocks(v, directory, i)) ==
            if start == 0 then w
            else
              var w' := Append(w, WalkBlock(RecordsOf(v), v.blockSize, start, 0));
              if w'.outcome == Finished then Append(w', WalkBlocks(v, directory, i + 1)) else w'
  {
    var block := WalkBlock(RecordsOf(v), v.blockSize, BlockIndexToOffset(v, directory.direct[i]), 0);
    var rest := WalkBlocks(v, directory, i + 1);
    assert w.entries + (block.entries + rest.entries) == w.entries + block.entries + rest.entries;
    assert w.entries + [] == w.entries;
  }

  method ReadRecord(v: Volume, ghost at: Records, pos: nat) returns (r: Option<DirectoryEntry>)
    requires v.Valid() && at == RecordsOf(v)
    ensures r == at(pos)
  {
    r := ReadDirectoryEntryFromDisk(v, pos % U32);
  }

  /** One round of the inner loop; `next` is the offset to go on at, unless the record has length zero. */
  method WalkOneRecord(ghost at: Records, ghost size: nat, ghost start: nat, off: nat, called: seq<DirectoryEntry>,
                       dir: DirectoryEntry)
    returns (entries: seq<DirectoryEntry>, next: nat)
    requires at(start + off) == Some(dir) && off < size
    ensures next == off + dir.recLen
    ensures Append(Walk(called, Finished), WalkBlock(at, size, start, off))
         == if next == off then Walk(entries, Hangs)
            else Append(Walk(entries, Finished), WalkBlock(at, size, start, next))
  {
    BlockStep(at, size, start, off, called, dir);
    entries := called;
    if dir.inode != 0 {
      entries := entries + [dir];
    }
    next := off + dir.recLen;
  }

  /** One block of the loop: calls back for each entry, appending it to `called`. */
  method WalkOneBlock(v: Volume, ghost at: Records, start: nat, called: seq<DirectoryEntry>) returns (w: Walk)
    requires v.Valid() && at == RecordsOf(v)
    ensures w == Append(Walk(called, Finished), WalkBlock(at, v.blockSize, start, 0))
  {
    var entries := called;
    var thisOffset := 0;
    ghost var whole := Append(Walk(called, Finished), WalkBlock(at, v.blockSize, start, 0));
    var dir := ReadRecord(v, at, start + thisOffset);
    while dir.Some? && thisOffset < v.blockSize
      invariant dir == at(start + thisOffset)
      invariant Append(Walk(entries, Finished), WalkBlock(at, v.blockSize, start, thisOffset)) == whole
      decreases v.blockSize - thisOffset, dir.Some?
    {
      var next: nat;
      entries, next := WalkOneRecord(at, v.blockSize, start, thisOffset, entries, dir.value);
      if next == thisOffset {
        return Walk(entries, Hangs);
      }
      thisOffset := next;
      dir := ReadRecord(v, at, start + thisOffset);
    }
    BlockEnd(at, v.blockSize, start, thisOffset, entries);
    w := Walk(entries, if dir == None then Panicked else Finished);
  }

  /** for_each_entry_in_dir for a directory inode. */
  method ForEachEntryInDir(v: Volume, directory: Inode) returns (w: Walk)
    requires v.Valid() && directory.Valid()
    ensures w == if directory.IsDirectory() then WalkBlocks(v, directory, 0) else Walk([], Panicked)
  {
    if !directory.IsDirectory() {
      return Walk([], Panicked);
    }
    w := Walk([], Finished);
    var i := 0;
    assert Append(w, WalkBlocks(v, directory, 0)) == WalkBlocks(v, directory, 0);
    while i < DIRECT_BLOCKS
      invariant i <= DIRECT_BLOCKS && w.outcome == Finished
      invariant Append(w, WalkBlocks(v, directory, i)) == WalkBlocks(v, directory, 0)
    {
      BlocksStep(v, directory, i, w);
      var startOffset := BlockIndexToOffset(v, directory.direct[i]);
      if startOffset == 0 {
        return;
      }
      w := WalkOneBlock(v, RecordsOf(v), startOffset, w.entries);
      if w.outcome != Finished {
        return;
      }
      i := i + 1;
    }
    assert w.entries + [] == w.entries;
    if directory.indirect != 0 {
      w := w.(outcome := Panicked);
    }
  }

  // ---------- Against the records a block holds ----------

  function LengthSum(recs: seq<DirectoryEntry>): nat {
    if recs == [] then 0 else recs[0].recLen + LengthSum(recs[1..])
  }

  /** `recs` stand one behind the other from `pos` on, each `recLen` bytes long. */
  ghost predicate Stored(at: Records, pos: nat, recs: seq<DirectoryEntry>)
    decreases |recs|
  {
    recs != [] ==> at(pos) == Some(recs[0]) && Stored(at, pos + recs[0].recLen, recs[1..])
  }

  /** The records in use, in order. */
  function InUse(recs: seq<DirectoryEntry>): seq<DirectoryEntry> {
    if recs == [] then []
    else (if recs[0].inode != 0 then [recs[0]] else []) + InUse(recs[1..])
  }

  /** A block is laid out as `recs`: positive record lengths that fill it exactly. The loop also reads
    the record position just behind the block, so that must be on the disk. */
  ghost predicate LaidOut(at: Records, size: nat, start: nat, recs: seq<DirectoryEntry>) {
    && Stored(at, start, recs)
    && (forall k :: 0 <= k < |recs| ==> recs[k].recLen > 0)
    && LengthSum(recs) == size
    && at(start + size).Some?
  }

  lemma {:induction false} WalkOfStored(at: Records, size: nat, start: nat, off: nat, recs: seq<DirectoryEntry>)
    requires Stored(at, start + off, recs) && off + LengthSum(recs) == size
    requires forall k :: 0 <= k < |recs| ==> recs[k].recLen > 0
    requires at(start + size).Some?
    ensures WalkBlock(at, size, start, off) == Walk(InUse(recs), Finished)
    decreases |recs|
  {
    if recs != [] {
      assert recs[0].recLen > 0;
      WalkOfStored(at, size, start, off + recs[0].recLen, recs[1..]);
    }
  }

  /** The walk of a well-formed block ends and calls back exactly once, in disk order, for every record
    with a nonzero inode. */
  lemma WalkBlockCallsInUse(at: Records, size: nat, start: nat, recs: seq<DirectoryEntry>)
    requires LaidOut(at, size, start, recs)
    ensures WalkBlock(at, size, start, 0) == Walk(InUse(recs), Finished)
  {
    WalkOfStored(at, size, start, 0, recs);
  }

  function Concat(blocks: seq<seq<DirectoryEntry>>): seq<DirectoryEntry> {
    if blocks == [] then [] else blocks[0] + Concat(blocks[1..])
  }

  ghost predicate BlockHolds(v: Volume, index: u32, recs: seq<DirectoryEntry>) {
    BlockIndexToOffset(v, index) != 0 && LaidOut(RecordsOf(v), v.blockSize, BlockIndexToOffset(v, index), recs)
  }

  /** Direct blocks `i` on hold the record lists `blocks`, and the next pointer, if any, is zero. */
  ghost predicate DirectoryHolds(v: Volume, directory: Inode, i: nat, blocks: seq<seq<DirectoryEntry>>)
    requires directory.Valid() && i + |blocks| <= DIRECT_BLOCKS
  {
    && (forall k :: 0 <= k < |blocks| ==> BlockHolds(v, directory.direct[i + k], blocks[k]))
    && if i + |blocks| < DIRECT_BLOCKS then BlockIndexToOffset(v, directory.direct[i + |blocks|]) == 0
       else directory.indirect == 0
  }

  lemma InUseConcat(a: seq<DirectoryEntry>, b: seq<DirectoryEntry>)
    ensures InUse(a + b) == InUse(a) + InUse(b)
  {
    if a == [] {
      assert a + b == b;
    } else {
      assert (a + b)[1..] == a[1..] + b;
      InUseConcat(a[1..], b);
    }
  }

  /** The whole directory walk, over all used blocks. */
  lemma {:induction false} WalkCallsInUse(v: Volume, directory: Inode, i: nat, blocks: seq<seq<DirectoryEntry>>)
    requires directory.Valid() && i + |blocks| <= DIRECT_BLOCKS
    requires DirectoryHolds(v, directory, i, blocks)
    ensures WalkBlocks(v, directory, i) == Walk(InUse(Concat(blocks)), Finished)
    decreases |blocks|
  {
    if blocks != [] {
      TailHolds(v, directory, i, blocks);
      WalkBlockCallsInUse(RecordsOf(v), v.blockSize, BlockIndexToOffset(v, directory.direct[i]), blocks[0]);
      WalkCallsInUse(v, directory, i + 1, blocks[1..]);
      InUseConcat(blocks[0], Concat(blocks[1..]));
    }
  }

  lemma TailHolds(v: Volume, directory: Inode, i: nat, blocks: seq<seq<DirectoryEntry>>)
    requires directory.Valid() && i + |blocks| <= DIRECT_BLOCKS && blocks != []
    requires DirectoryHolds(v, directory, i, blocks)
    ensures BlockHolds(v, directory.direct[i], blocks[0])
    ensures DirectoryHolds(v, directory, i + 1, blocks[1..])
  {
    assert BlockHolds(v, directory.direct[i + 0], blocks[0]);
    forall k | 0 <= k < |blocks| - 1 ensures BlockHolds(v, directory.direct[i + 1 + k], blocks[1..][k]) {
      assert BlockHolds(v, directory.direct[i + (k + 1)], blocks[k + 1]);
    }
  }

  // ---------- How a walk ends ----------

  /** The records that a walk of the block reads in turn, each beginning inside the block. */
  ghost predicate Reached(at: Records, size: nat, start: nat, recs: seq<DirectoryEntry>) {
    && Stored(at, start, recs)
    && (forall k :: 0 <= k < |recs| ==> recs[k].recLen > 0)
    && (recs != [] ==> LengthSum(recs[..|recs| - 1]) < size)
  }

  predicate EmptyRecordAt(at: Records, pos: nat) {
    at(pos).Some? && at(pos).value.recLen == 0
  }

  /** A walk goes over the records reached and on from behind them. */
  lemma {:induction false} WalkAlong(at: Records, size: nat, start: nat, off: nat, recs: seq<DirectoryEntry>,
                                     end: nat, rest: Walk)
    requires Stored(at, start + off, recs) && forall k :: 0 <= k < |recs| ==> recs[k].recLen > 0
    requires recs != [] ==> off + LengthSum(recs[..|recs| - 1]) < size
    requires end == off + LengthSum(recs) && rest == WalkBlock(at, size, start, end)
    ensures WalkBlock(at, size, start, off) == Walk(InUse(recs) + rest.entries, rest.outcome)
    decreases |recs|
  {
    if recs == [] {
      assert [] + rest.entries == rest.entries;
    } else {
      var e, tail := recs[0], recs[1..];
      assert e.recLen > 0;
      FrontLength(recs);
      WalkAlong(at, size, start, off + e.recLen, tail, end, rest);
      FirstEntry(e, InUse(tail), rest.entries, rest.outcome);
      WalkFirst(at, size, start, off, e);
    }
  }

  lemma FirstEntry(e: DirectoryEntry, a: seq<DirectoryEntry>, b: seq<DirectoryEntry>, outcome: Outcome)
    ensures WithEntry(e, Walk(a + b, outcome)) == Walk((if e.inode != 0 then [e] else []) + a + b, outcome)
  {
    assert [e] + (a + b) == [e] + a + b && [] + a == a;
  }

  lemma WalkFirst(at: Records, size: nat, start: nat, off: nat, e: DirectoryEntry)
    requires at(start + off) == Some(e) && off < size && e.recLen > 0
    ensures WalkBlock(at, size, start, off) == WithEntry(e, WalkBlock(at, size, start, off + e.recLen))
  {
  }

  lemma FrontLength(recs: seq<DirectoryEntry>)
    requires recs != []
    ensures |recs| > 1 ==> LengthSum(recs[..|recs| - 1]) == recs[0].recLen + LengthSum(recs[1..][..|recs| - 2])
    ensures |recs| == 1 ==> LengthSum(recs[..0]) == 0
  {
    if |recs| > 1 {
      assert recs[..|recs| - 1][1..] == recs[1..][..|recs| - 2];
    }
  }

  /** Every walk reaches some records and ends behind them, in the way the last read says. */
  lemma {:induction false} WalkReaches(at: Records, size: nat, start: nat, off: nat) returns (recs: seq<DirectoryEntry>)
    ensures Stored(at, start + off, recs) && forall k :: 0 <= k < |recs| ==> recs[k].recLen > 0
    ensures recs != [] ==> off + LengthSum(recs[..|recs| - 1]) < size
    ensures var last := off + LengthSum(recs);
            WalkBlock(at, size, start, off).outcome
            == if at(start + last) == None then Panicked else if last >= size then Finished else Hangs
    ensures WalkBlock(at, size, start, off).outcome == Hangs ==> EmptyRecordAt(at, start + (off + LengthSum(recs)))
    decreases size - off
  {
    recs := [];
    if off < size && at(start + off).Some? && at(start + off).value.recLen != 0 {
      var e := at(start + off).value;
      var rest := WalkReaches(at, size, start, off + e.recLen);
      recs := [e] + rest;
      assert recs[1..] == rest;
      FrontLength(recs);
    }
  }

  /** Records of positive length lead, inside the block, to one of length zero. */
  ghost predicate LeadsToEmpty(at: Records, size: nat, start: nat) {
    exists recs :: Reached(at, size, start, recs) && LengthSum(recs) < size
                   && EmptyRecordAt(at, start + LengthSum(recs))
  }

  /** The records `recs`, of positive length, lead to or past the end of the block, and the position behind
    them can be read. */
  ghost predicate LeadToEnd(at: Records, size: nat, start: nat, recs: seq<DirectoryEntry>) {
    Reached(at, size, start, recs) && LengthSum(recs) >= size && at(start + LengthSum(recs)).Some?
  }

  /** The walk of a block never ends if and only if it comes to a record of length zero in the block. */
  lemma WalkHangsIff(at: Records, size: nat, start: nat)
    ensures WalkBlock(at, size, start, 0).outcome == Hangs <==> LeadsToEmpty(at, size, start)
  {
    if LeadsToEmpty(at, size, start) {
      var recs :| Reached(at, size, start, recs) && LengthSum(recs) < size
                  && EmptyRecordAt(at, start + LengthSum(recs));
      AlongToEmpty(at, size, start, recs, LengthSum(recs));
    } else {
      var found := WalkEnds(at, size, start);
    }
  }

  lemma AlongToEmpty(at: Records, size: nat, start: nat, recs: seq<DirectoryEntry>, n: nat)
    requires Reached(at, size, start, recs) && n == LengthSum(recs) < size && EmptyRecordAt(at, start + n)
    ensures WalkBlock(at, size, start, 0).outcome == Hangs
  {
    WalkAlong(at, size, start, 0, recs, n, WalkBlock(at, size, start, n));
    EmptyRecordHangs(at, size, start, n);
  }

  lemma EmptyRecordHangs(at: Records, size: nat, start: nat, off: nat)
    requires off < size && EmptyRecordAt(at, start + off)
    ensures WalkBlock(at, size, start, off).outcome == Hangs
  {
  }

  lemma AlongToEnd(at: Records, size: nat, start: nat, recs: seq<DirectoryEntry>, n: nat)
    requires LeadToEnd(at, size, start, recs) && n == LengthSum(recs)
    ensures WalkBlock(at, size, start, 0) == Walk(InUse(recs), Finished)
  {
    WalkAlong(at, size, start, 0, recs, n, WalkBlock(at, size, start, n));
    EndFinishes(at, size, start, n);
    assert InUse(recs) + [] == InUse(recs);
  }

  lemma EndFinishes(at: Records, size: nat, start: nat, off: nat)
    requires off >= size && at(start + off).Some?
    ensures WalkBlock(at, size, start, off) == Walk([], Finished)
  {
  }

  lemma WalkEnds(at: Records, size: nat, start: nat) returns (recs: seq<DirectoryEntry>)
    ensures Reached(at, size, start, recs)
    ensures var last := start + LengthSum(recs);
            WalkBlock(at, size, start, 0).outcome
            == if at(last) == None then Panicked else if LengthSum(recs) >= size then Finished else Hangs
    ensures WalkBlock(at, size, start, 0).outcome == Hangs ==> EmptyRecordAt(at, start + LengthSum(recs))
  {
    recs := WalkReaches(at, size, start, 0);
  }

  /** It comes to its end if and only if some records lead there, and then it has called back for exactly
    those of them in use. */
  lemma WalkFinishesIff(at: Records, size: nat, start: nat)
    ensures WalkBlock(at, size, start, 0).outcome == Finished <==> exists recs :: LeadToEnd(at, size, start, recs)
    ensures forall recs :: LeadToEnd(at, size, start, recs) ==>
              WalkBlock(at, size, start, 0) == Walk(InUse(recs), Finished)
  {
    forall recs | LeadToEnd(at, size, start, recs)
      ensures WalkBlock(at, size, start, 0) == Walk(InUse(recs), Finished)
    {
      AlongToEnd(at, size, start, recs, LengthSum(recs));
    }
    if WalkBlock(at, size, start, 0).outcome == Finished {
      var found := WalkEnds(at, size, start);
      assert LeadToEnd(at, size, start, found);
    }
  }

  /** The walk of direct block `k`, as a block of its own. */
  function BlockOutcome(v: Volume, directory: Inode, k: nat): Outcome
    requires directory.Valid() && k < DIRECT_BLOCKS
  {
    WalkBlock(RecordsOf(v), v.blockSize, BlockIndexToOffset(v, directory.direct[k]), 0).outcome
  }

  function BlockOffset(v: Volume, directory: Inode, k: nat): nat
    requires directory.Valid() && k < DIRECT_BLOCKS
  {
    BlockIndexToOffset(v, directory.direct[k])
  }

  /** Block `k` is used and has a record of length zero in the way, and the used blocks from `i` up to it are
    walked to their ends. */
  ghost predicate HangsIn(v: Volume, directory: Inode, i: nat, k: nat)
    requires directory.Valid() && i <= k < DIRECT_BLOCKS
  {
    && BlockOffset(v, directory, k) != 0
    && LeadsToEmpty(RecordsOf(v), v.blockSize, BlockOffset(v, directory, k))
    && (forall j :: i <= j < k ==> PassesThrough(v, directory, j))
  }

  ghost predicate PassesThrough(v: Volume, directory: Inode, j: nat)
    requires directory.Valid() && j < DIRECT_BLOCKS
  {
    && BlockOffset(v, directory, j) != 0
    && exists recs :: LeadToEnd(RecordsOf(v), v.blockSize, BlockOffset(v, directory, j), recs)
  }

  lemma BlockOutcomes(v: Volume, directory: Inode, k: nat)
    requires directory.Valid() && k < DIRECT_BLOCKS
    ensures BlockOutcome(v, directory, k) == Hangs <==>
            LeadsToEmpty(RecordsOf(v), v.blockSize, BlockOffset(v, directory, k))
    ensures BlockOutcome(v, directory, k) == Finished <==>
            exists recs :: LeadToEnd(RecordsOf(v), v.blockSize, BlockOffset(v, directory, k), recs)
  {
    WalkHangsIff(RecordsOf(v), v.blockSize, BlockOffset(v, directory, k));
    WalkFinishesIff(RecordsOf(v), v.blockSize, BlockOffset(v, directory, k));
  }

  lemma OutcomeFrom(v: Volume, directory: Inode, i: nat)
    requires directory.Valid() && i < DIRECT_BLOCKS
    ensures WalkBlocks(v, directory, i).outcome
         == if BlockOffset(v, directory, i) == 0 then Finished
            else if BlockOutcome(v, directory, i) == Finished then WalkBlocks(v, directory, i + 1).outcome
            else BlockOutcome(v, directory, i)
  {
  }

  lemma HangsFurther(v: Volume, directory: Inode, i: nat, k: nat)
    requires directory.Valid() && i < k < DIRECT_BLOCKS
    ensures HangsIn(v, directory, i, k) <==> PassesThrough(v, directory, i) && HangsIn(v, directory, i + 1, k)
  {
    assert HangsIn(v, directory, i, k) ==> PassesThrough(v, directory, i);
  }

  ghost predicate HangsSomewhere(v: Volume, directory: Inode, i: nat)
    requires directory.Valid() && i <= DIRECT_BLOCKS
  {
    exists k :: i <= k < DIRECT_BLOCKS && HangsIn(v, directory, i, k)
  }

  lemma HereOrFurther(v: Volume, directory: Inode, i: nat, next: nat)
    requires directory.Valid() && i < DIRECT_BLOCKS && next == i + 1
    ensures HangsSomewhere(v, directory, i) <==>
            HangsIn(v, directory, i, i) || (PassesThrough(v, directory, i) && HangsSomewhere(v, directory, next))
  {
    if HangsSomewhere(v, directory, i) {
      var k :| i <= k < DIRECT_BLOCKS && HangsIn(v, directory, i, k);
      if k > i {
        HangsFurther(v, directory, i, k);
        assert HangsIn(v, directory, next, k);
      }
    }
    if HangsIn(v, directory, i, i) {
      assert HangsSomewhere(v, directory, i);
    }
    if PassesThrough(v, directory, i) && HangsSomewhere(v, directory, next) {
      var k :| next <= k < DIRECT_BLOCKS && HangsIn(v, directory, next, k);
      HangsFurther(v, directory, i, k);
      assert HangsIn(v, directory, i, k);
    }
  }

  /** The walk of a directory never ends if and only if a record of length zero stands in the way in some
    block and the blocks before it are walked to their ends. */
  lemma {:induction false} DirectoryHangsIff(v: Volume, directory: Inode, i: nat)
    requires directory.Valid() && i <= DIRECT_BLOCKS
    ensures WalkBlocks(v, directory, i).outcome == Hangs <==> HangsSomewhere(v, directory, i)
    decreases DIRECT_BLOCKS - i
  {
    if i < DIRECT_BLOCKS {
      OutcomeFrom(v, directory, i);
      BlockOutcomes(v, directory, i);
      DirectoryHangsIff(v, directory, i + 1);
      HereOrFurther(v, directory, i, i + 1);
    }
  }

  /** The used blocks from `i` up to `n` are walked to their ends, and then the first unused one stops the walk; or
    all are used and there is no indirect block. */
  ghost predicate EndsAt(v: Volume, directory: Inode, i: nat, n: nat)
    requires directory.Valid() && i <= n <= DIRECT_BLOCKS
  {
    && (forall j :: i <= j < n ==> PassesThrough(v, directory, j))
    && if n < DIRECT_BLOCKS then BlockOffset(v, directory, n) == 0 else directory.indirect == 0
  }

  ghost predicate EndsSomewhere(v: Volume, directory: Inode, i: nat)
    requires directory.Valid() && i <= DIRECT_BLOCKS
  {
    exists n :: i <= n <= DIRECT_BLOCKS && EndsAt(v, directory, i, n)
  }

  lemma EndsFurther(v: Volume, directory: Inode, i: nat, n: nat)
    requires directory.Valid() && i < n <= DIRECT_BLOCKS
    ensures EndsAt(v, directory, i, n) <==> PassesThrough(v, directory, i) && EndsAt(v, directory, i + 1, n)
  {
    assert EndsAt(v, directory, i, n) ==> PassesThrough(v, directory, i);
  }

  lemma EndsHereOrFurther(v: Volume, directory: Inode, i: nat, next: nat)
    requires directory.Valid() && i < DIRECT_BLOCKS && next == i + 1
    ensures EndsSomewhere(v, directory, i) <==>
            BlockOffset(v, directory, i) == 0 || (PassesThrough(v, directory, i) && EndsSomewhere(v, directory, next))
  {
    if EndsSomewhere(v, directory, i) {
      var n :| i <= n <= DIRECT_BLOCKS && EndsAt(v, directory, i, n);
      if n > i {
        EndsFurther(v, directory, i, n);
        assert EndsAt(v, directory, next, n);
      }
    }
    if BlockOffset(v, directory, i) == 0 {
      assert EndsAt(v, directory, i, i);
    }
    if PassesThrough(v, directory, i) && EndsSomewhere(v, directory, next) {
      var n :| next <= n <= DIRECT_BLOCKS && EndsAt(v, directory, next, n);
      EndsFurther(v, directory, i, n);
      assert EndsAt(v, directory, i, n);
    }
  }

  /** The walk of a directory comes to its end if and only if the blocks before the first unused one are walked to
    theirs, and, where all twelve are used, there is no indirect block; what is left is a panic. */
  lemma {:induction false} DirectoryFinishesIff(v: Volume, directory: Inode, i: nat)
    requires directory.Valid() && i <= DIRECT_BLOCKS
    ensures WalkBlocks(v, directory, i).outcome == Finished <==> EndsSomewhere(v, directory, i)
    decreases DIRECT_BLOCKS - i
  {
    if i < DIRECT_BLOCKS {
      OutcomeFrom(v, directory, i);
      BlockOutcomes(v, directory, i);
      DirectoryFinishesIff(v, directory, i + 1);
      EndsHereOrFurther(v, directory, i, i + 1);
    } else {
      assert EndsSomewhere(v, directory, i) <==> EndsAt(v, directory, i, i);
    }
  }
}
