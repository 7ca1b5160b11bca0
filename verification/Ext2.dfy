/** The ext2 read path of kernel/filesystem/ext2.cpp: blocks, inodes, whole files and directories, each
  read through the disk driver and specified directly on the bytes of the disk. */
module Ext2 {
  import opened Memory
  import opened Wrappers
  import opened Pata

  /** A mounted file system: the disk and the superblock fields the read path uses. */
  datatype Volume = Volume(disk: seq<byte>, blockSize: nat, groupInodes: nat, inodeSize: nat) {
    predicate Valid() {
      ValidDisk(disk) && ValidBlockSize(blockSize) && groupInodes > 0
    }
  }

  /** The range of the format: 1 KiB to 64 KiB, by shifts of 1024. */
  predicate ValidBlockSize(size: nat) {
    1024 <= size <= 0x1_0000 && size % 1024 == 0 && IsShift(size)
  }

  predicate IsShift(size: nat) {
    size == 0x400 || size == 0x800 || size == 0x1000 || size == 0x2000 || size == 0x4000 || size == 0x8000
    || size == 0x1_0000
  }

  /** 1024 << log */
  function BlockSizeFromLog(log: nat): nat {
    if log == 0 then 1024 else 2 * BlockSizeFromLog(log - 1)
  }

  /** Those are the sizes that the superblock's shift gives up to 6, and no larger shift gives one. */
  lemma MountedBlockSize(log: nat)
    ensures ValidBlockSize(BlockSizeFromLog(log)) <==> log <= 6
  {
    assert BlockSizeFromLog(0) == 0x400 && BlockSizeFromLog(1) == 0x800 && BlockSizeFromLog(2) == 0x1000
        && BlockSizeFromLog(3) == 0x2000 && BlockSizeFromLog(4) == 0x4000 && BlockSizeFromLog(5) == 0x8000
        && BlockSizeFromLog(6) == 0x1_0000;
    if log > 6 {
      LargeShift(log);
    }
  }

  lemma {:induction false} LargeShift(log: nat)
    requires log > 6
    ensures BlockSizeFromLog(log) > 0x1_0000
    decreases log
  {
    if log == 7 {
      assert BlockSizeFromLog(6) == 0x1_0000;
    } else {
      LargeShift(log - 1);
    }
  }

  lemma BlockSizeBounds(v: Volume)
    requires v.Valid()
    ensures 1024 <= v.blockSize <= 0x1_0000 && v.blockSize % SECTOR == 0
    ensures SectorCount(v.blockSize) < 256
  {
  }

  // ---------- Little-endian fields ----------

  function Le16(s: seq<byte>, at: nat): nat
    requires at + 2 <= |s|
  {
    s[at] as int + 0x100 * s[at + 1] as int
  }

  function Le32(s: seq<byte>, at: nat): u32
    requires at + 4 <= |s|
  {
    s[at] as int + 0x100 * s[at + 1] as int + 0x1_0000 * s[at + 2] as int + 0x100_0000 * s[at + 3] as int
  }

  // ---------- The disk as a byte sequence ----------

  /** The `len` bytes at `offset`; None when the driver's assertions fail. */
  function BytesAt(disk: seq<byte>, offset: nat, len: nat): (r: Option<seq<byte>>)
    ensures r.Some? ==> |r.value| == len
  {
    if Readable(disk, offset, len) && offset + len <= |disk| then Some(disk[offset..offset + len]) else None
  }

  /** Every read the file system makes is in bounds of the driver's buffer, so it is the flat slice. */
  method ReadBytes(disk: seq<byte>, offset: nat, len: u32) returns (r: Option<seq<byte>>)
    requires ValidDisk(disk) && CopyInBounds(offset, len) && SectorCount(len) < 256
    ensures r == BytesAt(disk, offset, len)
  {
    var out := new byte[len](_ => 0);
    var result, _ := ReadBytesPolling(disk, out, 0, offset, len);
    if result.Done? {
      assert out[..] == disk[offset..offset + len];
      r := Some(out[..]);
    } else {
      r := None;
    }
  }

  // ---------- Blocks ----------

  /** Offsets are 32-bit products. */
  function BlockIndexToOffset(v: Volume, index: u32): u32 {
    v.blockSize * index % U32
  }

  function BlockAt(v: Volume, index: u32): (r: Option<seq<byte>>)
    ensures r.Some? ==> |r.value| == v.blockSize
  {
    BytesAt(v.disk, BlockIndexToOffset(v, index), v.blockSize)
  }

  lemma BlockReadsInBounds(v: Volume, index: u32)
    requires v.Valid()
    ensures CopyInBounds(BlockIndexToOffset(v, index), v.blockSize) && SectorCount(v.blockSize) < 256
  {
    BlockSizeBounds(v);
    MultipleOfSector(v.blockSize, index);
    CopyInBoundsIff(BlockIndexToOffset(v, index), v.blockSize);
  }

  lemma MultipleOfSector(size: nat, index: nat)
    requires size % SECTOR == 0
    ensures (size * index % U32) % SECTOR == 0
  {
    ProductOfMultiple(size / SECTOR, index);
    RemainderOfMultiple(size / SECTOR * index);
  }

  lemma ProductOfMultiple(k: nat, index: nat)
    ensures (SECTOR * k) * index == SECTOR * (k * index)
  {
  }

  lemma RemainderOfMultiple(m: nat)
    ensures (SECTOR * m % U32) % SECTOR == 0
  {
  }

  /** Numbers of blocks below 4 GiB name the blocks of the disk one after the other; reading one meets the driver's
    assertions whenever the disk has it. */
  lemma BlockAtIs(v: Volume, index: nat)
    requires v.Valid() && v.blockSize * index < U32
    ensures index < U32
    ensures var from := v.blockSize * index;
            BlockAt(v, index) == if from + v.blockSize <= |v.disk| then Some(v.disk[from..from + v.blockSize]) else None
  {
    BlockSizeBounds(v);
    MultipleOfSector(v.blockSize, index);
    BlockNumberBelow(v.blockSize, index);
    WholeSectorsReadable(v.disk, v.blockSize * index, v.blockSize);
  }

  lemma BlockNumberBelow(size: nat, index: nat)
    requires size > 0
    ensures index <= size * index
  {
  }

  /** Larger numbers wrap around to those. */
  lemma BlockNumbersWrap(v: Volume, index: u32, k: nat)
    requires v.Valid() && index + U32 / v.blockSize * k < U32
    ensures BlockAt(v, index + U32 / v.blockSize * k) == BlockAt(v, index)
  {
    PowerOfTwoDivides(v.blockSize);
    var n := U32 / v.blockSize;
    assert v.blockSize * (index + n * k) == v.blockSize * index + (v.blockSize * n) * k;
    SameRemainder(v.blockSize * index, k);
  }

  lemma PowerOfTwoDivides(size: nat)
    requires IsShift(size)
    ensures size * (U32 / size) == U32
  {
  }

  lemma SameRemainder(a: nat, k: nat)
    ensures (a + U32 * k) % U32 == a % U32
  {
  }

  method ReadBlockFromDisk(v: Volume, index: u32) returns (r: Option<seq<byte>>)
    requires v.Valid()
    ensures r == BlockAt(v, index)
  {
    BlockReadsInBounds(v, index);
    r := ReadBytes(v.disk, BlockIndexToOffset(v, index), v.blockSize);
  }

  // ---------- Inodes ----------

  const DIRECT_BLOCKS := 12

  datatype Inode = Inode(mode: nat, sizeLower: u32, direct: seq<u32>, indirect: u32, sizeUpper: u32) {
    predicate Valid() {
      |direct| == DIRECT_BLOCKS
    }

    predicate IsDirectory() {
      mode / 0x4000 % 2 == 1
    }

    function TotalSize(): nat {
      sizeUpper * U32 + sizeLower
    }
  }

  function ParseInode(s: seq<byte>): (i: Inode)
    requires |s| == 128
    ensures |i.direct| == DIRECT_BLOCKS
  {
    Inode(Le16(s, 0), Le32(s, 4), seq(DIRECT_BLOCKS, k requires 0 <= k < DIRECT_BLOCKS => Le32(s, 40 + 4 * k)),
          Le32(s, 88), Le32(s, 108))
  }

  /** m_block_group_descriptor_table_offset */
  function DescriptorTable(v: Volume): nat {
    if v.blockSize == 1024 then 2048 else 1024
  }

  /** In ext2 the group descriptors are in the block behind the one that holds the superblock, which starts at
    byte 1024. The code looks for them there exactly on volumes with blocks of 1 KiB; on all others it looks in
    the superblock. */
  lemma DescriptorsFoundIff(v: Volume)
    requires v.Valid()
    ensures DescriptorTable(v) == (1024 / v.blockSize + 1) * v.blockSize <==> v.blockSize == 1024
    ensures v.blockSize != 1024 ==> DescriptorTable(v) == 1024
  {
  }

  function DescriptorPlace(v: Volume, group: nat): nat {
    (DescriptorTable(v) + group * 32) % U32
  }

  function InodePlace(v: Volume, table: u32, entry: nat): nat {
    (BlockIndexToOffset(v, table) + entry * v.inodeSize) % U32
  }

  /** The inode record of an inode number, straight from the disk: table entry (index - 1) % groupInodes of
    the table named by group descriptor (index - 1) / groupInodes. Number 0 fails an assertion. */
  function InodeAt(v: Volume, index: u32): (r: Option<Inode>)
    requires v.Valid()
    ensures r.Some? ==> r.value.Valid()
  {
    if index == 0 then None else
    var group, entry := (index - 1) / v.groupInodes, (index - 1) % v.groupInodes;
    match BytesAt(v.disk, DescriptorPlace(v, group), 32)
    case None => None
    case Some(descriptor) =>
      match BytesAt(v.disk, InodePlace(v, Le32(descriptor, 8), entry), 128)
      case None => None
      case Some(record) => Some(ParseInode(record))
  }

  method ReadInodeFromDisk(v: Volume, index: u32) returns (r: Option<Inode>)
    requires v.Valid()
    ensures r == InodeAt(v, index)
  {
    if index == 0 {
      return None;
    }
    var blockGroup := (index - 1) / v.groupInodes;
    var tableIndex := (index - 1) % v.groupInodes;
    var tableOffset := DescriptorTable(v);
    CopyInBoundsIff((tableOffset + blockGroup * 32) % U32, 32);
    var descriptor := ReadBytes(v.disk, (tableOffset + blockGroup * 32) % U32, 32);
    if descriptor == None {
      return None;
    }
    var inodeTable := Le32(descriptor.value, 8);
    var offset := (BlockIndexToOffset(v, inodeTable) + tableIndex * v.inodeSize) % U32;
    CopyInBoundsIff(offset, 128);
    var record := ReadBytes(v.disk, offset, 128);
    if record == None {
      return None;
    }
    r := Some(ParseInode(record.value));
  }

  // ---------- Blocks of a file ----------

  /** The disk block behind block `n` of a file: a direct pointer or an entry of the indirect table. */
  function BlockPointer(v: Volume, inode: Inode, n: nat): Option<u32>
    requires v.Valid() && inode.Valid()
  {
    BlockSizeBounds(v);
    if n < DIRECT_BLOCKS then Some(inode.direct[n])
    else if n > v.blockSize / 4 then None
    else match BlockAt(v, inode.indirect)
      case None => None
      case Some(table) => Some(Le32(table, 4 * (n - DIRECT_BLOCKS)))
  }

  /** The 32-bit words of a table block, front to back. */
  function Words(table: seq<byte>): (ws: seq<u32>)
    ensures |ws| == |table| / 4
  {
    if |table| < 4 then [] else [Le32(table, 0)] + Words(table[4..])
  }

  /** All the pointers of a file: those in the inode, then those in its indirect table, if that can be read. */
  function Pointers(v: Volume, inode: Inode): seq<u32> {
    inode.direct + (match BlockAt(v, inode.indirect) case None => [] case Some(table) => Words(table))
  }

  lemma {:induction false} WordAt(table: seq<byte>, k: nat)
    requires 4 * k + 4 <= |table|
    ensures Words(table)[k] == Le32(table, 4 * k)
  {
    if k > 0 {
      WordAt(table[4..], k - 1);
    }
  }

  /** Block `n` of a file is behind the n-th of its pointers, up to the one with number blockSize / 4; the
    indirect table's last eleven entries are never reached. */
  lemma BlockPointerIs(v: Volume, inode: Inode, n: nat)
    requires v.Valid() && inode.Valid()
    ensures BlockPointer(v, inode, n)
         == if n <= v.blockSize / 4 && n < |Pointers(v, inode)| then Some(Pointers(v, inode)[n]) else None
    ensures BlockAt(v, inode.indirect).Some? ==> |Pointers(v, inode)| == DIRECT_BLOCKS + v.blockSize / 4
  {
    BlockSizeBounds(v);
    var table := BlockAt(v, inode.indirect);
    if DIRECT_BLOCKS <= n <= v.blockSize / 4 && table.Some? {
      WordAt(table.value, n - DIRECT_BLOCKS);
    }
  }

  function FileBlock(v: Volume, inode: Inode, n: nat): (r: Option<seq<byte>>)
    requires v.Valid() && inode.Valid()
    ensures r.Some? ==> |r.value| == v.blockSize
  {
    match BlockPointer(v, inode, n)
    case None => None
    case Some(index) => BlockAt(v, index)
  }

  predicate IsZeros(s: seq<byte>) {
    forall k :: 0 <= k < |s| ==> s[k] == 0
  }

  /** A block pointer of zero, which stands for a hole, reads the first block of the disk: it gives the zeros of
    a hole exactly when that block holds zeros. */
  lemma HoleReadsFirstBlock(v: Volume, inode: Inode, n: nat)
    requires v.Valid() && inode.Valid() && BlockPointer(v, inode, n) == Some(0)
    ensures FileBlock(v, inode, n).Some? <==> v.blockSize <= |v.disk|
    ensures v.blockSize <= |v.disk| ==>
              && FileBlock(v, inode, n).value == v.disk[..v.blockSize]
              && (IsZeros(FileBlock(v, inode, n).value) <==> forall k :: 0 <= k < v.blockSize ==> v.disk[k] == 0)
  {
    BlockAtIs(v, 0);
  }

  method ReadInodeBlockFromDisk(v: Volume, inode: Inode, n: nat) returns (r: Option<seq<byte>>)
    requires v.Valid() && inode.Valid()
    ensures r == FileBlock(v, inode, n)
    ensures r == if n <= v.blockSize / 4 && n < |Pointers(v, inode)| then BlockAt(v, Pointers(v, inode)[n]) else None
  {
    BlockSizeBounds(v);
    BlockPointerIs(v, inode, n);
    var indirectBlockCount := v.blockSize / 4;
    if n < DIRECT_BLOCKS {
      r := ReadBlockFromDisk(v, inode.direct[n]);
    } else if n <= indirectBlockCount {
      r := ReadIndirectBlockFromDisk(v, inode.indirect, n - DIRECT_BLOCKS);
    } else {
      r := None;
    }
  }

  method ReadIndirectBlockFromDisk(v: Volume, tableBlock: u32, blockOffset: nat) returns (r: Option<seq<byte>>)
    requires v.Valid() && 4 * blockOffset + 4 <= v.blockSize
    ensures r == match BlockAt(v, tableBlock)
                 case None => None
                 case Some(table) => BlockAt(v, Le32(table, 4 * blockOffset))
  {
    var table := ReadBlockFromDisk(v, tableBlock);
    if table == None {
      return None;
    }
    r := ReadBlockFromDisk(v, Le32(table.value, 4 * blockOffset));
  }
}
