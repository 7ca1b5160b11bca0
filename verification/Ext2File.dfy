/** Reading a file: `data_from_inode` of kernel/filesystem/ext2.cpp. */
module Ext2File {
  import opened Arithmetic
  import opened Memory
  import opened Wrappers
  import opened Pata
  import opened Ext2

  const U64 := 0x1_0000_0000_0000_0000

  /** What one call comes to: the count it returns, a kernel panic, or a memcpy that leaves its source
    or destination. */
  datatype FileRead = Read(count: nat) | Panicked | Overrun

  /** The block that holds the last of `total` bytes. */
  function LastBlock(total: nat, blockSize: nat): nat
    requires blockSize > 0
  {
    if total <= blockSize then 0 else 1 + LastBlock(total - blockSize, blockSize)
  }

  lemma {:induction false} LastBlockBounds(total: nat, blockSize: nat)
    requires total > 0 && blockSize > 0
    ensures blockSize * LastBlock(total, blockSize) < total <= blockSize * (LastBlock(total, blockSize) + 1)
  {
    if total > blockSize {
      LastBlockBounds(total - blockSize, blockSize);
      var n := LastBlock(total - blockSize, blockSize);
      assert blockSize * (n + 1) == blockSize * n + blockSize;
      assert blockSize * (n + 1 + 1) == blockSize * (n + 1) + blockSize;
    }
  }

  /** divide_ceil(total, blockSize) - 1 on u64 */
  function EndBlock(total: nat, blockSize: nat): nat
    requires blockSize > 0
  {
    ((if total % blockSize != 0 then total / blockSize + 1 else total / blockSize) + U64 - 1) % U64
  }

  /** The code's end_block is the block of the last byte. */
  lemma EndBlockIsLast(total: nat, blockSize: nat)
    requires 0 < total < U64 && blockSize > 0
    ensures EndBlock(total, blockSize) == LastBlock(total, blockSize)
  {
    EndBlockOfTotal(total, blockSize);
    LastBlockBounds(total, blockSize);
    SameBlock(blockSize, EndBlock(total, blockSize), LastBlock(total, blockSize), total);
  }

  lemma SameBlock(d: nat, x: nat, y: nat, total: nat)
    requires d * x < total <= d * (x + 1) && d * y < total <= d * (y + 1)
    ensures x == y
  {
    if x < y {
      NextMultiple(d, x + 1, y);
    } else if y < x {
      NextMultiple(d, y + 1, x);
    }
  }

  lemma EndBlockOfTotal(total: nat, blockSize: nat)
    requires 0 < total < U64 && blockSize > 0
    ensures blockSize * EndBlock(total, blockSize) < total <= blockSize * (EndBlock(total, blockSize) + 1)
  {
    var q := total / blockSize;
    assert total == blockSize * q + total % blockSize;
    NextMultiple(q, 1, blockSize);
    assert q <= total;
    assert blockSize * (q + 1) == blockSize * q + blockSize;
    assert q > 0 ==> blockSize * (q - 1) == blockSize * q - blockSize;
  }

  // ---------- The contents of a file ----------

  /** The blocks of a file by number; None is a failed assertion on the way to the block. Numbers are
    64 bits wide and reach the block lookup as a u32. */
  type FileBlocks = nat -> Option<seq<byte>>

  function BlocksOf(v: Volume, inode: Inode): FileBlocks
    requires v.Valid() && inode.Valid()
  {
    (n: nat) => FileBlock(v, inode, n % U32)
  }

  ghost predicate Sized(file: FileBlocks, size: nat) {
    forall n :: file(n).Some? ==> |file(n).value| == size
  }

  lemma BlocksSized(v: Volume, inode: Inode)
    requires v.Valid() && inode.Valid()
    ensures Sized(BlocksOf(v, inode), v.blockSize)
  {
  }

  ghost predicate AllReadable(file: FileBlocks, from: nat, n: int) {
    forall m :: from <= m < from + n ==> file(m).Some?
  }

  /** `n` blocks from `from` on, one behind the other. */
  function Blocks(file: FileBlocks, from: nat, n: nat): seq<byte> {
    if n == 0 then []
    else Blocks(file, from, n - 1) + (match file(from + n - 1) case None => [] case Some(b) => b)
  }

  lemma {:induction false} BlocksLength(file: FileBlocks, size: nat, from: nat, n: nat)
    requires Sized(file, size) && AllReadable(file, from, n)
    ensures |Blocks(file, from, n)| == size * n
  {
    if n > 0 {
      BlocksLength(file, size, from, n - 1);
      assert size * n == size * (n - 1) + size;
    }
  }

  ghost predicate Holds(s: seq<byte>, size: nat, m: nat, j: nat, b: byte) {
    size * m + j < |s| && s[size * m + j] == b
  }

  /** Byte `j` of the block `m` behind the first stands at place size * m + j. */
  lemma {:induction false} BlocksByte(file: FileBlocks, size: nat, from: nat, n: nat, m: nat, j: nat)
    requires Sized(file, size) && AllReadable(file, from, n) && m < n && j < size
    ensures Holds(Blocks(file, from, n), size, m, j, file(from + m).value[j])
  {
    BlocksLength(file, size, from, n);
    BlocksLength(file, size, from, n - 1);
    NextMultiple(size, m, n - 1);
    if m < n - 1 {
      BlocksByte(file, size, from, n - 1, m, j);
    }
  }

  /** Byte `j` of disk block `index`, on the flat disk. */
  ghost predicate OnDisk(v: Volume, index: u32, j: nat, b: byte) {
    var at := BlockIndexToOffset(v, index) + j;
    at < |v.disk| && v.disk[at] == b
  }

  lemma BlockByteOnDisk(v: Volume, index: u32, j: nat)
    requires BlockAt(v, index).Some? && j < v.blockSize
    ensures OnDisk(v, index, j, BlockAt(v, index).value[j])
  {
  }

  /** On the flat disk: the byte at place blockSize * m + j behind block `from` of a file is byte `j` of the
    disk block that pointer from + m names. */
  lemma FileByteOnDisk(v: Volume, inode: Inode, from: nat, n: nat, m: nat, j: nat) returns (index: u32, b: byte)
    requires v.Valid() && inode.Valid() && AllReadable(BlocksOf(v, inode), from, n) && m < n && j < v.blockSize
    ensures (from + m) % U32 < |Pointers(v, inode)| && index == Pointers(v, inode)[(from + m) % U32]
    ensures Holds(Blocks(BlocksOf(v, inode), from, n), v.blockSize, m, j, b) && OnDisk(v, index, j, b)
  {
    BlocksSized(v, inode);
    assert BlocksOf(v, inode)(from + m).Some?;
    index := BlockPointer(v, inode, (from + m) % U32).value;
    BlockPointerIs(v, inode, (from + m) % U32);
    b := BlockAt(v, index).value[j];
    BlockByteOnDisk(v, index, j);
    BlocksByte(BlocksOf(v, inode), v.blockSize, from, n, m, j);
  }

  /** `data` is what the file's blocks hold from byte `skip` of block `from` on. */
  ghost predicate IsRange(file: FileBlocks, from: nat, n: nat, skip: nat, data: seq<byte>) {
    skip + |data| <= |Blocks(file, from, n)| && data == Blocks(file, from, n)[skip..skip + |data|]
  }

  // ---------- The contents by the file's pointers ----------

  /** The disk blocks of a list of pointers, one behind the other. */
  function BlocksAt(v: Volume, pointers: seq<u32>): seq<byte> {
    if pointers == [] then []
    else
      var n := |pointers| - 1;
      BlocksAt(v, pointers[..n]) + (match BlockAt(v, pointers[n]) case None => [] case Some(b) => b)
  }

  lemma BlocksAtNext(v: Volume, ps: seq<u32>, first: nat, n: nat)
    requires first + n < |ps|
    ensures BlocksAt(v, ps[first..first + n + 1])
         == BlocksAt(v, ps[first..first + n]) + (match BlockAt(v, ps[first + n]) case None => [] case Some(b) => b)
  {
    assert ps[first..first + n + 1][..n] == ps[first..first + n];
  }

  lemma NumberAfter(from: nat, n: nat, limit: nat)
    requires from % U32 + n <= limit < U32
    ensures (from + n) % U32 == from % U32 + n
  {
  }

  /** A block that can be read is the one behind pointer `i`. */
  ghost predicate PointedAt(v: Volume, block: Option<seq<byte>>, ps: seq<u32>, i: nat) {
    block.Some? ==> i < |ps| && i <= 0x4000 && block == BlockAt(v, ps[i])
  }

  /** The pointer of a block is the one with its number, cut to 32 bits. */
  ghost predicate PointedBy(v: Volume, file: FileBlocks, ps: seq<u32>) {
    forall n: nat :: PointedAt(v, file(n), ps, n % U32)
  }

  lemma FileIsPointed(v: Volume, inode: Inode)
    requires v.Valid() && inode.Valid()
    ensures PointedBy(v, BlocksOf(v, inode), Pointers(v, inode))
  {
    forall n: nat ensures PointedAt(v, BlocksOf(v, inode)(n), Pointers(v, inode), n % U32) {
      PointerOf(v, inode, n % U32);
    }
  }

  lemma PointerOf(v: Volume, inode: Inode, i: u32)
    requires v.Valid() && inode.Valid()
    ensures PointedAt(v, FileBlock(v, inode, i), Pointers(v, inode), i)
  {
    BlockPointerIs(v, inode, i);
    BlockSizeBounds(v);
  }

  /** The numbers of readable blocks do not wrap on the way. */
  lemma {:induction false} NumbersConsecutive(v: Volume, file: FileBlocks, ps: seq<u32>, from: nat, first: nat, n: nat)
    requires PointedBy(v, file, ps) && AllReadable(file, from, n + 1) && first == from % U32
    ensures (from + n) % U32 == first + n <= 0x4000
    ensures file(from + n).Some? && PointedAt(v, file(from + n), ps, first + n)
  {
    if n > 0 {
      NumbersConsecutive(v, file, ps, from, first, n - 1);
      NumberAfter(from, n, 0x4001);
    }
    assert file(from + n).Some?;
  }

  ghost predicate PointedFrom(v: Volume, file: FileBlocks, ps: seq<u32>, from: nat, first: nat, k: nat) {
    file(from + k).Some? && first + k < |ps| && file(from + k) == BlockAt(v, ps[first + k])
  }

  /** Blocks behind consecutive pointers. */
  lemma {:induction false} BlocksArePointed(v: Volume, file: FileBlocks, ps: seq<u32>, from: nat, first: nat, n: nat)
    requires forall k :: 0 <= k <= n ==> PointedFrom(v, file, ps, from, first, k)
    ensures first + n < |ps| && Blocks(file, from, n + 1) == BlocksAt(v, ps[first..first + n + 1])
  {
    assert PointedFrom(v, file, ps, from, first, n);
    if n > 0 {
      BlocksArePointed(v, file, ps, from, first, n - 1);
    } else {
      assert ps[first..first] == [];
    }
    BlocksAtNext(v, ps, first, n);
  }

  /** Readable blocks of a file are the disk blocks behind consecutive pointers of it. */
  lemma ReadableArePointed(v: Volume, file: FileBlocks, ps: seq<u32>, from: nat, n: nat)
    requires PointedBy(v, file, ps) && AllReadable(file, from, n + 1)
    ensures forall k :: 0 <= k <= n ==> PointedFrom(v, file, ps, from, from % U32, k)
  {
    var first := from % U32;
    forall k | 0 <= k <= n ensures PointedFrom(v, file, ps, from, first, k) {
      NumbersConsecutive(v, file, ps, from, first, k);
    }
  }

  /** `data` is what the disk blocks behind `n` pointers hold from byte `skip` on. */
  ghost predicate PointedRange(v: Volume, pointers: seq<u32>, first: nat, n: nat, skip: nat, data: seq<byte>) {
    && first + n <= |pointers|
    && var all := BlocksAt(v, pointers[first..first + n]);
       skip + |data| <= |all| && data == all[skip..skip + |data|]
  }

  lemma RangeIsPointed(v: Volume, file: FileBlocks, ps: seq<u32>, from: nat, first: nat, n: nat, skip: nat,
                       data: seq<byte>)
    requires n > 0 && forall k :: 0 <= k <= n - 1 ==> PointedFrom(v, file, ps, from, first, k)
    requires IsRange(file, from, n, skip, data)
    ensures PointedRange(v, ps, first, n, skip, data)
  {
    BlocksArePointed(v, file, ps, from, first, n - 1);
  }

  /** `data` is what the disk blocks behind the file's pointers hold from byte `offset` of the file on. */
  ghost predicate HoldsFileBytes(v: Volume, inode: Inode, offset: nat, bytes: nat, data: seq<byte>)
    requires v.Valid()
  {
    var first, last := offset / v.blockSize, LastBlock(offset + bytes, v.blockSize);
    && first <= last
    && PointedRange(v, Pointers(v, inode), first % U32, last - first + 1, offset % v.blockSize, data)
  }

  // ---------- Which calls come back ----------

  /** The place in the buffer where the final block goes: whole blocks up to it, or one block. */
  function FinalPlace(first: nat, last: nat, skip: nat, blockSize: nat): int {
    blockSize * Max(1, last - first) - skip
  }

  /** The arithmetic of one call: `offset` lies `skip` bytes into block `first`, and the last of the bytes
    asked for lies in block `last`. */
  ghost predicate Spans(offset: nat, bytes: nat, blockSize: nat, first: nat, last: nat, skip: nat) {
    && skip < blockSize && first <= last && offset == blockSize * first + skip
    && blockSize * last < offset + bytes <= blockSize * (last + 1)
  }

  /** The final block's place leaves at most one block, and nothing when one block holds it all. */
  lemma FinalPlaceFits(offset: nat, bytes: nat, blockSize: nat, first: nat, last: nat, skip: nat)
    requires Spans(offset, bytes, blockSize, first, last, skip) && blockSize - skip <= bytes
    ensures var place := FinalPlace(first, last, skip, blockSize);
            0 < place <= bytes <= place + blockSize && (first == last ==> place == bytes)
  {
    assert blockSize * last == blockSize * first + blockSize * (last - first);
    assert blockSize * (last + 1) == blockSize * last + blockSize;
    if last > first {
      NextMultiple(blockSize, 0, last - first);
    }
  }

  /** The calls that come back: all blocks in the range can be read, the first part fits the buffer, and
    the file's length, as 32 bits see it, lies between the final block's place and the end of the
    buffer. */
  ghost predicate ComesBack(v: Volume, inode: Inode, offset: nat, bytes: nat)
    requires v.Valid() && inode.Valid()
  {
    && !inode.IsDirectory() && offset + bytes <= inode.TotalSize()
    && RangeCopies(BlocksOf(v, inode), v.blockSize, inode.TotalSize(), bytes, offset / v.blockSize,
                   LastBlock(offset + bytes, v.blockSize), offset % v.blockSize)
  }

  ghost predicate RangeCopies(file: FileBlocks, blockSize: nat, total: nat, bytes: nat,
                              first: nat, last: nat, skip: nat)
  {
    var place := FinalPlace(first, last, skip, blockSize);
    && blockSize - skip <= bytes
    && file(first).Some? && AllReadable(file, first, last - first)
    && (total != place ==> file(last).Some?)
    && place <= total % U32 <= bytes
  }

  /** Such a call reads every block of the range. */
  lemma CopiesReadAll(file: FileBlocks, blockSize: nat, total: nat, offset: nat, bytes: nat,
                      first: nat, last: nat, skip: nat)
    requires RangeCopies(file, blockSize, total, bytes, first, last, skip)
    requires Spans(offset, bytes, blockSize, first, last, skip) && offset + bytes <= total
    ensures AllReadable(file, first, last - first + 1)
  {
    assert blockSize * last == blockSize * first + blockSize * (last - first);
  }

  /** So what it copies is what the pointers name. */
  lemma DataIsPointed(v: Volume, inode: Inode, first: nat, last: nat, skip: nat, data: seq<byte>)
    requires v.Valid() && inode.Valid() && first <= last
    requires AllReadable(BlocksOf(v, inode), first, last - first + 1)
    requires IsRange(BlocksOf(v, inode), first, last - first + 1, skip, data)
    ensures PointedRange(v, Pointers(v, inode), first % U32, last - first + 1, skip, data)
  {
    var file, ps := BlocksOf(v, inode), Pointers(v, inode);
    FileIsPointed(v, inode);
    ReadableArePointed(v, file, ps, first, last - first);
    RangeIsPointed(v, file, ps, first, first % U32, last - first + 1, skip, data);
  }

  /** For files below 4 GiB those are the calls that ask for a whole file of at least one block. */
  ghost predicate WholeFile(v: Volume, inode: Inode, offset: nat, bytes: nat)
    requires v.Valid() && inode.Valid()
  {
    && !inode.IsDirectory()
    && offset == 0 && bytes == inode.TotalSize() && bytes >= v.blockSize
    && AllReadable(BlocksOf(v, inode), 0, LastBlock(bytes, v.blockSize) + 1)
  }

  lemma ComesBackBelow4GiB(v: Volume, inode: Inode, offset: nat, bytes: u32)
    requires v.Valid() && inode.Valid() && inode.TotalSize() < U32
    ensures ComesBack(v, inode, offset, bytes) <==> WholeFile(v, inode, offset, bytes)
  {
    FirstPlace(offset, v.blockSize);
    if offset + bytes <= inode.TotalSize() {
      CopiesBelow4GiB(BlocksOf(v, inode), v.blockSize, inode.TotalSize(), offset, bytes, offset / v.blockSize,
                      offset % v.blockSize);
    }
  }

  lemma CopiesBelow4GiB(file: FileBlocks, blockSize: nat, total: nat, offset: nat, bytes: u32, first: nat, skip: nat)
    requires offset + bytes <= total < U32 && skip < blockSize && (offset == 0 ==> first == 0 && skip == 0)
    ensures RangeCopies(file, blockSize, total, bytes, first, LastBlock(offset + bytes, blockSize), skip) <==>
            && offset == 0 && bytes == total && bytes >= blockSize
            && AllReadable(file, 0, LastBlock(bytes, blockSize) + 1)
  {
    CopiesBound(file, blockSize, total, bytes, first, LastBlock(offset + bytes, blockSize), skip);
    if offset == 0 && bytes == total && bytes >= blockSize {
      WholeFileCopies(file, blockSize, bytes);
    }
  }

  lemma CopiesBound(file: FileBlocks, blockSize: nat, total: nat, bytes: nat, first: nat, last: nat, skip: nat)
    ensures RangeCopies(file, blockSize, total, bytes, first, last, skip) ==>
              blockSize - skip <= bytes && total % U32 <= bytes
  {
  }

  lemma WholeFileCopies(file: FileBlocks, blockSize: nat, bytes: u32)
    requires 0 < blockSize <= bytes
    ensures var last := LastBlock(bytes, blockSize);
            RangeCopies(file, blockSize, bytes, bytes, 0, last, 0) <==> AllReadable(file, 0, last + 1)
  {
    LastBlockBounds(bytes, blockSize);
    WholeFileParts(file, blockSize, bytes, LastBlock(bytes, blockSize));
  }

  lemma WholeFileParts(file: FileBlocks, blockSize: nat, bytes: nat, last: nat)
    requires 0 < blockSize <= bytes && blockSize * last < bytes <= blockSize * (last + 1)
    ensures var place := FinalPlace(0, last, 0, blockSize);
            && place <= bytes
            && (AllReadable(file, 0, last + 1) <==>
                  file(0).Some? && AllReadable(file, 0, last) && (bytes != place ==> file(last).Some?))
  {
    FinalPlaceFits(0, bytes, blockSize, 0, last, 0);
    assert AllReadable(file, 0, last + 1) ==> file(0).Some? && file(last).Some?;
  }

  // ---------- Copying ----------

  /** What is known while reading: the buffer starts with the first `k` blocks from `first` on, cut by
    `skip`. */
  ghost predicate Progress(file: FileBlocks, size: nat, first: nat, skip: nat, buffer: seq<byte>, pos: nat, k: nat) {
    && pos <= |buffer| && pos == size * k - skip && AllReadable(file, first, k)
    && |Blocks(file, first, k)| == pos + skip && buffer[..pos] == Blocks(file, first, k)[skip..]
  }

  lemma OverlayBehind(buffer: seq<byte>, pos: nat, w: seq<byte>)
    requires pos + |w| <= |buffer|
    ensures Overlay(buffer, pos, w)[..pos + |w|] == buffer[..pos] + w
  {
  }

  lemma ProgressByBlock(file: FileBlocks, size: nat, first: nat, skip: nat, before: seq<byte>, pos: nat, k: nat,
                        block: seq<byte>, after: seq<byte>)
    requires Progress(file, size, first, skip, before, pos, k) && |block| == size && pos + size <= |after|
    requires file(first + k) == Some(block) && after[..pos + size] == before[..pos] + block
    ensures Progress(file, size, first, skip, after, pos + size, k + 1)
  {
    assert size * (k + 1) == size * k + size;
    assert Blocks(file, first, k + 1) == Blocks(file, first, k) + block;
    assert (Blocks(file, first, k) + block)[skip..] == Blocks(file, first, k)[skip..] + block;
  }

  /** One memcpy of a whole block. */
  method CopyBlock(ghost file: FileBlocks, ghost first: nat, ghost skip: nat, buffer: array<byte>, pos: nat,
                   ghost k: nat, block: seq<byte>)
    requires pos + |block| <= buffer.Length && file(first + k) == Some(block)
    requires Progress(file, |block|, first, skip, buffer[..], pos, k)
    modifies buffer
    ensures Progress(file, |block|, first, skip, buffer[..], pos + |block|, k + 1)
  {
    OverlayBehind(buffer[..], pos, block);
    CopyAll(buffer, pos, block);
    ProgressByBlock(file, |block|, first, skip, old(buffer[..]), pos, k, block, buffer[..]);
  }

  method ReadFileBlock(v: Volume, inode: Inode, ghost file: FileBlocks, n: nat) returns (r: Option<seq<byte>>)
    requires v.Valid() && inode.Valid() && file == BlocksOf(v, inode)
    ensures r == file(n) && (r.Some? ==> |r.value| == v.blockSize)
  {
    r := ReadInodeBlockFromDisk(v, inode, n % U32);
  }

  /** One round of the loop over whole blocks: read block `first + k` and copy it behind the others. */
  method ReadAndCopy(v: Volume, inode: Inode, ghost file: FileBlocks, first: nat, ghost skip: nat, buffer: array<byte>,
                     pos: nat, k: nat)
    returns (stop: Option<FileRead>)
    requires v.Valid() && inode.Valid() && file == BlocksOf(v, inode)
    requires Progress(file, v.blockSize, first, skip, buffer[..], pos, k)
    modifies buffer
    ensures stop == None <==> file(first + k).Some? && pos + v.blockSize <= buffer.Length
    ensures stop == None ==> Progress(file, v.blockSize, first, skip, buffer[..], pos + v.blockSize, k + 1)
    ensures stop.Some? ==> !stop.value.Read?
  {
    var thisBlock := ReadFileBlock(v, inode, file, first + k);
    if thisBlock == None {
      return Some(Panicked);
    }
    if pos + v.blockSize > buffer.Length {
      return Some(Overrun);
    }
    CopyBlock(file, first, skip, buffer, pos, k, thisBlock.value);
    stop := None;
  }

  /** The loop over whole blocks, of which there are `n` with the first; `stop` is set when a block cannot be
    read. */
  method CopyWholeBlocks(v: Volume, inode: Inode, ghost file: FileBlocks, first: nat, ghost skip: nat,
                         buffer: array<byte>, n: nat, ghost place: int, at: nat)
    returns (stop: Option<FileRead>, pos: nat)
    requires v.Valid() && inode.Valid() && file == BlocksOf(v, inode)
    requires n >= 1 && v.blockSize * n - skip == place <= buffer.Length
    requires Progress(file, v.blockSize, first, skip, buffer[..], at, 1)
    modifies buffer
    ensures stop == None ==> pos == place && Progress(file, v.blockSize, first, skip, buffer[..], pos, n)
    ensures stop.Some? ==> !stop.value.Read? && !AllReadable(file, first, n)
  {
    pos := at;
    var k := 1;
    while k < n
      invariant 1 <= k <= n
      invariant Progress(file, v.blockSize, first, skip, buffer[..], pos, k)
    {
      NextMultiple(v.blockSize, k, n);
      stop := ReadAndCopy(v, inode, file, first, skip, buffer, pos, k);
      if stop.Some? {
        return;
      }
      pos := pos + v.blockSize;
      k := k + 1;
    }
    stop := None;
  }

  /** What is left of the file, computed in 64 bits and cut to 32, fits behind `pos` exactly when the cut
    length lies between there and the end of the buffer; and then it is the total returned. */
  lemma LeftFits(fileLength: nat, pos: nat, bytes: nat)
    requires pos <= bytes <= fileLength < U64 && bytes < U32
    ensures (fileLength - pos) % U64 == fileLength - pos
    ensures pos + (fileLength - pos) % U32 <= bytes <==> pos <= fileLength % U32 <= bytes
    ensures pos <= fileLength % U32 <= bytes ==>
              pos + (fileLength - pos) % U32 == fileLength % U32 == (pos + (fileLength - pos)) % U32
  {
    var q, r := fileLength / U32, fileLength % U32;
    assert fileLength == U32 * q + r;
    if r >= pos {
      QuotientIs(fileLength - pos, U32, q, r - pos);
    } else {
      QuotientIs(fileLength - pos, U32, q - 1, r + U32 - pos);
    }
  }

  /** The final block: what is left of the file, in 64-bit arithmetic, as a 32-bit count. */
  method CopyFinalBlock(v: Volume, inode: Inode, ghost file: FileBlocks, buffer: array<byte>, last: nat, pos: nat)
    returns (r: FileRead)
    requires v.Valid() && inode.Valid() && file == BlocksOf(v, inode)
    requires pos <= buffer.Length <= pos + v.blockSize && buffer.Length < U32
    requires buffer.Length <= inode.TotalSize() < U64
    modifies buffer
    ensures r.Read? <==> && (inode.TotalSize() != pos ==> file(last).Some?)
                         && pos <= inode.TotalSize() % U32 <= buffer.Length
    ensures r.Read? ==> r.count == inode.TotalSize() % U32
    ensures r.Read? && pos < r.count ==>
              && |file(last).value| == v.blockSize && r.count - pos <= v.blockSize
              && buffer[..r.count] == old(buffer[..pos]) + file(last).value[..r.count - pos]
    ensures r.Read? && pos == r.count ==> buffer[..pos] == old(buffer[..pos])
  {
    var fileLength := inode.TotalSize();
    LeftFits(fileLength, pos, buffer.Length);
    var bytesLeft := (fileLength - pos) % U64;
    if bytesLeft == 0 {
      return Read(pos);
    }
    var thisBlock := ReadFileBlock(v, inode, file, last);
    if thisBlock == None {
      return Panicked;
    }
    var count := bytesLeft % U32;
    if count > v.blockSize || pos + count > buffer.Length {
      return Overrun;
    }
    CopyHead(buffer, pos, thisBlock.value, count);
    r := Read((pos + bytesLeft) % U32);
  }

  /** The memcpy of the first `count` bytes of a block. */
  method CopyHead(buffer: array<byte>, pos: nat, block: seq<byte>, count: nat)
    requires count <= |block| && pos + count <= buffer.Length
    modifies buffer
    ensures buffer[..pos + count] == old(buffer[..pos]) + block[..count]
  {
    OverlayBehind(buffer[..], pos, block[..count]);
    CopyAll(buffer, pos, block[..count]);
  }

  /** The final part continues the range. */
  lemma RangeGrows(file: FileBlocks, size: nat, first: nat, skip: nat, head: seq<byte>, n: nat, data: seq<byte>)
    requires Progress(file, size, first, skip, head, |head|, n) && |data| > |head|
    requires file(first + n).Some? && |data| - |head| <= |file(first + n).value|
    requires data == head + file(first + n).value[..|data| - |head|]
    ensures IsRange(file, first, n + 1, skip, data)
  {
    var whole, block := Blocks(file, first, n), file(first + n).value;
    assert Blocks(file, first, n + 1) == whole + block;
    assert (whole + block)[skip..skip + |data|] == whole[skip..] + block[..|data| - |head|];
  }

  /** Without one, the range is what the whole blocks hold. */
  lemma RangeStays(file: FileBlocks, size: nat, first: nat, skip: nat, head: seq<byte>, n: nat, m: nat)
    requires Progress(file, size, first, skip, head, |head|, n) && n <= m <= n + 1
    ensures IsRange(file, first, m, skip, head)
  {
    var whole := Blocks(file, first, n);
    assert head[..|head|] == head && whole[skip..skip + |head|] == whole[skip..];
    if m == n + 1 {
      var more := match file(first + n) case None => [] case Some(b) => b;
      assert Blocks(file, first, n + 1) == whole + more;
      assert (whole + more)[skip..skip + |head|] == whole[skip..skip + |head|];
    }
  }

  /** The memcpy of the first block from `skip` on. */
  method CopyFirstBlock(ghost file: FileBlocks, buffer: array<byte>, ghost first: nat, skip: nat, block: seq<byte>)
    requires file(first) == Some(block) && skip < |block| && |block| - skip <= buffer.Length
    modifies buffer
    ensures Progress(file, |block|, first, skip, buffer[..], |block| - skip, 1)
  {
    OverlayBehind(buffer[..], 0, block[skip..]);
    CopyAll(buffer, 0, block[skip..]);
    assert buffer[..|block| - skip] == block[skip..];
    assert Blocks(file, first, 1) == Blocks(file, first, 0) + block == block;
  }

  lemma FirstPlace(offset: nat, blockSize: nat)
    requires blockSize > 0
    ensures offset % blockSize < blockSize && offset == blockSize * (offset / blockSize) + offset % blockSize
    ensures offset == 0 ==> offset / blockSize == 0 && offset % blockSize == 0
  {
  }

  /** end_block */
  method FindEndBlock(total: nat, blockSize: nat) returns (last: nat)
    requires blockSize > 0 && total < U64
    ensures total > 0 ==> last == LastBlock(total, blockSize)
                          && blockSize * last < total <= blockSize * (last + 1)
  {
    last := EndBlock(total, blockSize);
    if total > 0 {
      EndBlockIsLast(total, blockSize);
      LastBlockBounds(total, blockSize);
    }
  }

  /** start_block and first_block_offset */
  method FindStart(offset: nat, blockSize: nat) returns (first: nat, skip: nat)
    requires blockSize > 0
    ensures first == offset / blockSize && skip == offset % blockSize
    ensures skip < blockSize && offset == blockSize * first + skip
  {
    FirstPlace(offset, blockSize);
    first := offset / blockSize;
    skip := offset % blockSize;
  }

  lemma OrderOfBlocks(d: nat, first: nat, last: nat, offset: nat, bytes: nat)
    requires d > 0 && d * first <= offset && bytes > 0 && offset + bytes <= d * (last + 1)
    ensures first <= last
  {
    NextMultiple(d, last, first);
    assert d * (last + 1) == d * last + d;
  }

  /** The part behind the assertions: first block, whole blocks, final block. */
  method CopyFile(v: Volume, inode: Inode, ghost file: FileBlocks, ghost offset: nat, buffer: array<byte>,
                  first: nat, last: nat, skip: nat)
    returns (r: FileRead)
    requires v.Valid() && inode.Valid() && file == BlocksOf(v, inode) && inode.TotalSize() < U64
    requires buffer.Length < U32 && offset + buffer.Length <= inode.TotalSize() && skip < v.blockSize
    requires buffer.Length > 0 ==> Spans(offset, buffer.Length, v.blockSize, first, last, skip)
    modifies buffer
    ensures r.Read? <==> RangeCopies(file, v.blockSize, inode.TotalSize(), buffer.Length, first, last, skip)
    ensures r.Read? ==>
              && r.count == inode.TotalSize() % U32 && first <= last
              && PointedRange(v, Pointers(v, inode), first % U32, last - first + 1, skip, buffer[..r.count])
    ensures buffer.Length < v.blockSize - skip && file(first).Some? ==> r.Overrun?
  {
    var thisBlock := ReadFileBlock(v, inode, file, first);
    if thisBlock == None {
      return Panicked;
    }
    if v.blockSize - skip > buffer.Length {
      return Overrun;
    }
    FinalPlaceFits(offset, buffer.Length, v.blockSize, first, last, skip);
    CopyFirstBlock(file, buffer, first, skip, thisBlock.value);
    r := CopyBehindFirst(v, inode, file, buffer, first, last, skip, Max(1, last - first),
                         FinalPlace(first, last, skip, v.blockSize));
    if r.Read? {
      CopiesReadAll(file, v.blockSize, inode.TotalSize(), offset, buffer.Length, first, last, skip);
      DataIsPointed(v, inode, first, last, skip, buffer[..r.count]);
    }
  }

  /** Everything behind the first block; `n` is the number of whole blocks with it. */
  method CopyBehindFirst(v: Volume, inode: Inode, ghost file: FileBlocks, buffer: array<byte>,
                         first: nat, last: nat, skip: nat, n: nat, ghost place: nat)
    returns (r: FileRead)
    requires v.Valid() && inode.Valid() && file == BlocksOf(v, inode)
    requires buffer.Length < U32 && buffer.Length <= inode.TotalSize() < U64 && skip < v.blockSize
    requires first <= last && n == Max(1, last - first) && place == v.blockSize * n - skip
    requires place <= buffer.Length <= place + v.blockSize && (first == last ==> place == buffer.Length)
    requires Progress(file, v.blockSize, first, skip, buffer[..], v.blockSize - skip, 1)
    modifies buffer
    ensures r.Read? <==>
              && AllReadable(file, first, n)
              && (inode.TotalSize() != place ==> file(last).Some?)
              && place <= inode.TotalSize() % U32 <= buffer.Length
    ensures r.Read? ==> && r.count == inode.TotalSize() % U32
                        && IsRange(file, first, last - first + 1, skip, buffer[..r.count])
  {
    var stop, pos := CopyWholeBlocks(v, inode, file, first, skip, buffer, n, place, v.blockSize - skip);
    if stop.Some? {
      return stop.value;
    }
    ghost var head := buffer[..pos];
    r := CopyFinalBlock(v, inode, file, buffer, last, pos);
    if r.Read? {
      if pos < r.count {
        RangeGrows(file, v.blockSize, first, skip, head, n, buffer[..r.count]);
      } else {
        RangeStays(file, v.blockSize, first, skip, head, n, last - first + 1);
      }
    }
  }

  /** The request ends before the end of its first block, and that block can be read. */
  ghost predicate EndsInFirstBlock(v: Volume, inode: Inode, offset: nat, bytes: nat)
    requires v.Valid() && inode.Valid()
  {
    bytes < v.blockSize - offset % v.blockSize && BlocksOf(v, inode)(offset / v.blockSize).Some?
  }

  /** data_from_inode behind its assertions. */
  method CopyRange(v: Volume, inode: Inode, ghost file: FileBlocks, offset: nat, bytes: u32, buffer: array<byte>)
    returns (r: FileRead)
    requires v.Valid() && inode.Valid() && file == BlocksOf(v, inode) && buffer.Length == bytes
    requires offset + bytes <= inode.TotalSize() < U64
    modifies buffer
    requires !inode.IsDirectory()
    ensures r.Read? <==> ComesBack(v, inode, offset, bytes)
    ensures r.Read? ==> r.count == inode.TotalSize() % U32 <= bytes
                        && HoldsFileBytes(v, inode, offset, bytes, buffer[..r.count])
    ensures EndsInFirstBlock(v, inode, offset, bytes) ==> r.Overrun?
  {
    var first, skip := FindStart(offset, v.blockSize);
    var last := FindEndBlock(offset + bytes, v.blockSize);
    if bytes > 0 {
      OrderOfBlocks(v.blockSize, first, last, offset, bytes);
    }
    r := CopyFile(v, inode, file, offset, buffer, first, last, skip);
  }

  /** An offset whose sum with `bytes` wraps in 64 bits passes the assertion on the file's length, but the
    number of its block, cut to 32 bits, is beyond the indirect blocks. */
  lemma WrappedOffsetPanics(v: Volume, inode: Inode, offset: nat, bytes: u32)
    requires v.Valid() && inode.Valid() && offset < U64 <= offset + bytes
    ensures BlocksOf(v, inode)(offset / v.blockSize) == None
  {
    TopBlocks(v.blockSize, offset);
  }

  lemma TopBlocks(size: nat, offset: nat)
    requires ValidBlockSize(size) && U64 - U32 < offset < U64
    ensures offset / size % U32 > size / 4 && offset / size % U32 >= DIRECT_BLOCKS
  {
    if size == 0x400 {
      TopBlocksOf(size, offset, 0x40_0000, 0x40_0000);
    } else if size == 0x800 {
      TopBlocksOf(size, offset, 0x20_0000, 0x20_0000);
    } else if size == 0x1000 {
      TopBlocksOf(size, offset, 0x10_0000, 0x10_0000);
    } else if size == 0x2000 {
      TopBlocksOf(size, offset, 0x8_0000, 0x8_0000);
    } else if size == 0x4000 {
      TopBlocksOf(size, offset, 0x4_0000, 0x4_0000);
    } else if size == 0x8000 {
      TopBlocksOf(size, offset, 0x2_0000, 0x2_0000);
    } else {
      TopBlocksOf(size, offset, 0x1_0000, 0x1_0000);
    }
  }

  /** The last `p` block numbers below U32 * k, 4 GiB of blocks below 2^64. */
  lemma TopBlocksOf(size: nat, offset: nat, p: nat, k: nat)
    requires 1024 <= size <= 0x1_0000 && size * p == U32 && p <= 0x40_0000 && k > 0 && size * (U32 * k) == U64
    requires U64 - U32 < offset < U64
    ensures offset / size % U32 > size / 4 && offset / size % U32 >= DIRECT_BLOCKS
  {
    var d := offset / size;
    var top := U32 * k;
    FirstPlace(offset, size);
    NextMultiple(size, top - 1, d);
    assert size * (top - 1) == size * top - size;
    NextMultiple(size, d, top - p);
    assert size * (top - p) == size * top - size * p;
    QuotientIs(d, U32, k - 1, d - U32 * (k - 1));
  }

  /** The two assertions at the head of data_from_inode; the sum is one of 64 bits. */
  method PassesAssertions(inode: Inode, offset: nat, bytes: u32) returns (ok: bool)
    requires offset < U64
    ensures !ok ==> inode.IsDirectory() || offset + bytes > inode.TotalSize()
    ensures ok && offset + bytes < U64 ==> !inode.IsDirectory() && offset + bytes <= inode.TotalSize()
  {
    ok := !inode.IsDirectory() && (offset + bytes) % U64 <= inode.TotalSize();
  }

  /** data_from_inode on an inode already read. The caller's buffer has `bytes` bytes. The call comes
    back exactly as ComesBack says, and then the buffer holds the file's bytes from `offset` on, as many as
    the call returns. A request for less than the rest of its first block overruns the buffer. */
  method DataFromInode(v: Volume, inode: Inode, offset: nat, bytes: u32, buffer: array<byte>) returns (r: FileRead)
    requires v.Valid() && inode.Valid() && offset < U64 && buffer.Length == bytes
    modifies buffer
    ensures r.Read? <==> ComesBack(v, inode, offset, bytes)
    ensures r.Read? ==> r.count == inode.TotalSize() % U32 <= bytes
                        && HoldsFileBytes(v, inode, offset, bytes, buffer[..r.count])
    ensures !inode.IsDirectory() && offset + bytes <= inode.TotalSize() && EndsInFirstBlock(v, inode, offset, bytes)
            ==> r.Overrun?
  {
    var ok := PassesAssertions(inode, offset, bytes);
    if !ok {
      return Panicked;
    }
    if offset + bytes >= U64 {
      WrappedOffsetPanics(v, inode, offset, bytes);
      var thisBlock := ReadFileBlock(v, inode, BlocksOf(v, inode), offset / v.blockSize);
      return Panicked;
    }
    r := CopyRange(v, inode, BlocksOf(v, inode), offset, bytes, buffer);
  }

  /** data_from_inode: the inode is looked up first, by a number of 64 bits that is cut to 32. */
  method ReadFile(v: Volume, index: nat, offset: nat, bytes: u32, buffer: array<byte>) returns (r: FileRead)
    requires v.Valid() && index < U64 && offset < U64 && buffer.Length == bytes
    modifies buffer
    ensures index % U32 == 0 ==> r.Panicked?
    ensures var inode := InodeAt(v, index % U32);
            && (r.Read? <==> inode.Some? && ComesBack(v, inode.value, offset, bytes))
            && (r.Read? ==> && r.count == inode.value.TotalSize() % U32 <= bytes
                            && HoldsFileBytes(v, inode.value, offset, bytes, buffer[..r.count]))
  {
    var inode := ReadInodeFromDisk(v, index % U32);
    if inode == None {
      return Panicked;
    }
    r := DataFromInode(v, inode.value, offset, bytes, buffer);
  }

  /** The number of blocks that hold a file's bytes, the last one filled or not. */
  function PointerCount(inode: Inode, blockSize: nat): nat
    requires blockSize > 0
  {
    (inode.TotalSize() + blockSize - 1) / blockSize
  }

  lemma WholeFilePointers(v: Volume, inode: Inode, data: seq<byte>, n: nat)
    requires v.Valid() && PointedRange(v, Pointers(v, inode), 0, n, 0, data)
    ensures n <= |Pointers(v, inode)| && data <= BlocksAt(v, Pointers(v, inode)[..n])
  {
    assert Pointers(v, inode)[0..n] == Pointers(v, inode)[..n];
  }

  lemma CeilingIs(total: nat, d: nat, last: nat)
    requires d > 0 && d * last < total <= d * (last + 1)
    ensures (total + d - 1) / d == last + 1
  {
    assert d * (last + 1) == d * last + d;
    QuotientIs(total + d - 1, d, last + 1, total - d * last - 1);
  }

  lemma WholeFileHeld(v: Volume, inode: Inode, data: seq<byte>)
    requires v.Valid() && 0 < |data| == inode.TotalSize() && HoldsFileBytes(v, inode, 0, |data|, data)
    ensures var n := PointerCount(inode, v.blockSize);
            n <= |Pointers(v, inode)| && data <= BlocksAt(v, Pointers(v, inode)[..n])
  {
    FirstPlace(0, v.blockSize);
    LastBlockBounds(|data|, v.blockSize);
    CeilingIs(|data|, v.blockSize, LastBlock(|data|, v.blockSize));
    WholeFilePointers(v, inode, data, PointerCount(inode, v.blockSize));
  }

  lemma WholeFileSize(v: Volume, inode: Inode, bytes: nat)
    requires v.Valid() && inode.Valid() && inode.TotalSize() < U32 && WholeFile(v, inode, 0, bytes)
    ensures 0 < bytes == inode.TotalSize() == inode.TotalSize() % U32
  {
  }

  /** Below 4 GiB: data_from_inode for a whole file fills the buffer with the concatenation of its blocks,
    cut to its length, which is returned. */
  method WholeFileFromInode(v: Volume, inode: Inode, bytes: u32, buffer: array<byte>) returns (r: FileRead)
    requires v.Valid() && inode.Valid() && inode.TotalSize() < U32 && buffer.Length == bytes
    modifies buffer
    ensures r.Read? <==> WholeFile(v, inode, 0, bytes)
    ensures r.Read? ==> && r.count == bytes && PointerCount(inode, v.blockSize) <= |Pointers(v, inode)|
                        && buffer[..] <= BlocksAt(v, Pointers(v, inode)[..PointerCount(inode, v.blockSize)])
  {
    ComesBackBelow4GiB(v, inode, 0, bytes);
    r := DataFromInode(v, inode, 0, bytes, buffer);
    if r.Read? {
      WholeFileSize(v, inode, bytes);
      assert buffer[..r.count] == buffer[..];
      WholeFileHeld(v, inode, buffer[..]);
    }
  }
}
