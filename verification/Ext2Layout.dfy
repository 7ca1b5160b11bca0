/** The records of kernel/filesystem/ext2_structs.hpp field by field, and what reading one back gives. */
module Ext2Layout {
  import opened Wrappers
  import opened Pata
  import opened Ext2
  import opened Ext2Directory

  // ---------- Packed little-endian structs ----------

  /** `x` in `width` bytes, the lowest first. */
  function LeBytes(x: nat, width: nat): (s: seq<byte>)
    ensures |s| == width
  {
    if width == 0 then [] else [x % 0x100] + LeBytes(x / 0x100, width - 1)
  }

  /** 256^width */
  function Span(width: nat): nat {
    if width == 0 then 1 else 0x100 * Span(width - 1)
  }

  /** Where field `k` starts: behind all fields before it. */
  function Offset(widths: seq<nat>, k: nat): nat
    requires k <= |widths|
  {
    if k == 0 then 0 else Offset(widths, k - 1) + widths[k - 1]
  }

  /** The first `n` fields, one behind the other. */
  function Packed(widths: seq<nat>, values: seq<nat>, n: nat): (s: seq<byte>)
    requires n <= |widths| == |values|
    ensures |s| == Offset(widths, n)
  {
    if n == 0 then [] else Packed(widths, values, n - 1) + LeBytes(values[n - 1], widths[n - 1])
  }

  function Struct(widths: seq<nat>, values: seq<nat>): seq<byte>
    requires |widths| == |values|
  {
    Packed(widths, values, |widths|)
  }

  lemma {:induction false} FieldAt(widths: seq<nat>, values: seq<nat>, n: nat, k: nat)
    requires k < n <= |widths| == |values|
    ensures Offset(widths, k) + widths[k] <= Offset(widths, n)
    ensures Packed(widths, values, n)[Offset(widths, k)..Offset(widths, k) + widths[k]] == LeBytes(values[k], widths[k])
  {
    if k < n - 1 {
      FieldAt(widths, values, n - 1, k);
    }
  }

  lemma FourBytes(x: nat, a: nat, b: nat, c: nat)
    requires a == x / 0x100 && b == a / 0x100 && c == b / 0x100
    ensures LeBytes(x, 4) == [x % 0x100, a % 0x100, b % 0x100, c % 0x100]
  {
    assert LeBytes(x, 4) == [x % 0x100] + LeBytes(a, 3);
    assert LeBytes(a, 3) == [a % 0x100] + LeBytes(b, 2);
    assert LeBytes(b, 2) == [b % 0x100] + LeBytes(c, 1);
    assert LeBytes(c, 1) == [c % 0x100] + [];
  }

  lemma Le32OfFour(s: seq<byte>, at: nat, f: seq<byte>)
    requires at + 4 <= |s| && s[at..at + 4] == f
    ensures Le32(s, at) == f[0] as int + 0x100 * f[1] as int + 0x1_0000 * f[2] as int + 0x100_0000 * f[3] as int
  {
    assert s[at] == f[0] && s[at + 1] == f[1] && s[at + 2] == f[2] && s[at + 3] == f[3];
  }

  lemma Le32OfBytes(s: seq<byte>, at: nat, x: u32)
    requires at + 4 <= |s| && s[at..at + 4] == LeBytes(x, 4)
    ensures Le32(s, at) == x
  {
    var a := x / 0x100;
    var b := a / 0x100;
    var c := b / 0x100;
    FourBytes(x, a, b, c);
    Le32OfFour(s, at, [x % 0x100, a % 0x100, b % 0x100, c % 0x100]);
  }

  lemma Le16OfBytes(s: seq<byte>, at: nat, x: nat)
    requires x < 0x1_0000 && at + 2 <= |s| && s[at..at + 2] == LeBytes(x, 2)
    ensures Le16(s, at) == x
  {
    assert LeBytes(x, 2) == [x % 0x100] + LeBytes(x / 0x100, 1);
    assert LeBytes(x / 0x100, 1) == [x / 0x100 % 0x100] + [];
    assert forall j :: 0 <= j < 2 ==> s[at + j] == LeBytes(x, 2)[j];
  }

  /** Every value fits its field. */
  predicate Fit(widths: seq<nat>, values: seq<nat>) {
    |widths| == |values| && forall k :: 0 <= k < |widths| ==> values[k] < Span(widths[k])
  }

  lemma Field32(widths: seq<nat>, values: seq<nat>, k: nat, at: nat)
    requires Fit(widths, values) && k < |widths| && widths[k] == 4 && at == Offset(widths, k)
    ensures at + 4 <= |Struct(widths, values)| && values[k] < U32
    ensures Le32(Struct(widths, values), at) == values[k]
  {
    FieldAt(widths, values, |widths|, k);
    assert Span(4) == U32 by {
      assert Span(2) == 0x1_0000;
    }
    Le32OfBytes(Struct(widths, values), at, values[k]);
  }

  lemma Field16(widths: seq<nat>, values: seq<nat>, k: nat, at: nat)
    requires Fit(widths, values) && k < |widths| && widths[k] == 2 && at == Offset(widths, k)
    ensures at + 2 <= |Struct(widths, values)| && values[k] < 0x1_0000
    ensures Le16(Struct(widths, values), at) == values[k]
  {
    FieldAt(widths, values, |widths|, k);
    assert Span(2) == 0x1_0000;
    Le16OfBytes(Struct(widths, values), at, values[k]);
  }

  // ---------- The records ----------

  /** struct Inode: u16 type and uid (0, 1), u32 size_lower (2), four times, u16 gid and hard_link_count (7, 8), u32
    disk_sectors_in_use, flags and an OS value, the twelve direct pointers (12 to 23), the three indirect ones (24
    to 26), generation_number, file_acl, size_upper (29), fragment_block_addr, and twelve bytes of OS values. */
  function InodeWidth(k: nat): nat {
    if k <= 1 || k == 7 || k == 8 then 2 else if k == 31 then 12 else 4
  }

  function InodeWidths(): (widths: seq<nat>)
    ensures |widths| == 32 && forall k :: 0 <= k < 32 ==> widths[k] == InodeWidth(k)
  {
    seq(32, k requires 0 <= k => InodeWidth(k))
  }

  /** struct BlockGroupDescriptor: two bitmaps, the inode table, three counts, the reserved bytes with the padding. */
  const DESCRIPTOR: seq<nat> := [4, 4, 4, 2, 2, 2, 14]

  /** struct DirectoryEntry up to the name. */
  const ENTRY: seq<nat> := [4, 2, 1, 1]

  lemma {:induction false} InodeOffset(k: nat)
    requires k <= 32
    ensures Offset(InodeWidths(), k) == if k <= 2 then 2 * k else if k <= 7 then 4 * k - 4 else if k == 8 then 26
                                else if k <= 31 then 4 * k - 8 else 128
  {
    if k > 0 {
      InodeOffset(k - 1);
      assert InodeWidths()[k - 1] == InodeWidth(k - 1);
    }
  }

  lemma InodeField(values: seq<nat>, k: nat)
    requires Fit(InodeWidths(), values) && (k == 2 || 12 <= k <= 30)
    ensures |Struct(InodeWidths(), values)| == 128 && values[k] < U32
    ensures Le32(Struct(InodeWidths(), values), if k == 2 then 4 else 4 * k - 8) == values[k]
  {
    InodeOffset(k);
    InodeOffset(32);
    Field32(InodeWidths(), values, k, if k == 2 then 4 else 4 * k - 8);
  }

  /** An inode record read back: mode, lengths and block pointers are the struct's fields. */
  lemma InodeReadBack(values: seq<nat>)
    requires Fit(InodeWidths(), values)
    ensures |Struct(InodeWidths(), values)| == 128
    ensures var i := ParseInode(Struct(InodeWidths(), values));
            && i.mode == values[0] && i.sizeLower == values[2] && i.direct == values[12..24]
            && i.indirect == values[24] && i.sizeUpper == values[29]
  {
    InodeOffset(0);
    Field16(InodeWidths(), values, 0, 0);
    InodeField(values, 2);
    InodeField(values, 24);
    InodeField(values, 29);
    forall j | 0 <= j < DIRECT_BLOCKS ensures Le32(Struct(InodeWidths(), values), 40 + 4 * j) == values[12 + j] {
      InodeField(values, 12 + j);
    }
  }

  /** A directory entry read back. */
  lemma EntryReadBack(values: seq<nat>, name: seq<byte>)
    requires Fit(ENTRY, values) && |name| == 256
    ensures var s := Struct(ENTRY, values) + name;
            |s| == ENTRY_SIZE && values[0] < U32
            && values[2] < 0x100 && values[3] < 0x100
            && ParseEntry(s) == DirectoryEntry(values[0], values[1], values[2], values[3], name)
  {
    var s, head := Struct(ENTRY, values) + name, Struct(ENTRY, values);
    assert Offset(ENTRY, 1) == 4 && Offset(ENTRY, 2) == 6 && Offset(ENTRY, 3) == 7 && Offset(ENTRY, 4) == 8;
    Field32(ENTRY, values, 0, 0);
    Field16(ENTRY, values, 1, 4);
    FieldAt(ENTRY, values, 4, 2);
    FieldAt(ENTRY, values, 4, 3);
    assert head[6..7] == LeBytes(values[2], 1) == [values[2] % 0x100] + [];
    assert head[7..8] == LeBytes(values[3], 1) == [values[3] % 0x100] + [];
    assert Span(1) == 0x100;
    assert head[6] == head[6..7][0] && head[7] == head[7..8][0];
    assert s[8..] == name;
    assert forall j :: 0 <= j < 8 ==> s[j] == head[j];
  }

  // ---------- An inode on a formatted disk ----------

  /** The record stands at byte `at`, with one more sector behind the one it starts in: the driver always reads two
    sectors for so short a record, and fails its assertion where the disk has only one. */
  ghost predicate HoldsRecord(disk: seq<byte>, at: nat, record: seq<byte>) {
    at < U32 && |record| < SECTOR && at - at % SECTOR + 2 * SECTOR <= |disk| && disk[at..at + |record|] == record
  }

  lemma RecordRead(disk: seq<byte>, at: nat, record: seq<byte>)
    requires ValidDisk(disk) && HoldsRecord(disk, at, record) && record != []
    ensures BytesAt(disk, at, |record|) == Some(record)
  {
    ReadableIff(disk, at, |record|);
  }

  lemma DescriptorReadBack(values: seq<nat>)
    requires Fit(DESCRIPTOR, values)
    ensures |Struct(DESCRIPTOR, values)| == 32 && values[2] < U32 && Le32(Struct(DESCRIPTOR, values), 8) == values[2]
  {
    assert Offset(DESCRIPTOR, 2) == 8 && Offset(DESCRIPTOR, 4) == 14;
    assert Offset(DESCRIPTOR, 6) == 18 && Offset(DESCRIPTOR, 7) == 32;
    Field32(DESCRIPTOR, values, 2, 8);
  }

  /** The descriptor of a group, in the table behind the superblock's block. */
  ghost predicate DescriptorStored(v: Volume, group: nat, values: seq<nat>)
    requires v.blockSize > 0
  {
    && Fit(DESCRIPTOR, values)
    && HoldsRecord(v.disk, (1024 / v.blockSize + 1) * v.blockSize + 32 * group, Struct(DESCRIPTOR, values))
  }

  /** Entry `entry` of the inode table that starts at block `table`. */
  ghost predicate InodeStored(v: Volume, table: nat, entry: nat, values: seq<nat>) {
    && Fit(InodeWidths(), values)
    && HoldsRecord(v.disk, v.blockSize * table + v.inodeSize * entry, Struct(InodeWidths(), values))
  }

  lemma DescriptorPlaceIs(v: Volume, group: nat, at: nat)
    requires v.blockSize == 1024 && at == (1024 / v.blockSize + 1) * v.blockSize + 32 * group && at < U32
    ensures DescriptorPlace(v, group) == at
  {
  }

  lemma InodePlaceIs(v: Volume, table: u32, entry: nat, at: nat)
    requires at == v.blockSize * table + v.inodeSize * entry && at < U32
    ensures InodePlace(v, table, entry) == at
  {
    var a, b := v.blockSize * table, v.inodeSize * entry;
    assert entry * v.inodeSize == b;
    assert 0 <= a && 0 <= b;
  }

  lemma RecordsRead(v: Volume, index: u32, descriptor: seq<byte>, inode: seq<byte>)
    requires v.Valid() && index > 0 && |descriptor| == 32 && |inode| == 128
    requires BytesAt(v.disk, DescriptorPlace(v, (index - 1) / v.groupInodes), 32) == Some(descriptor)
    requires BytesAt(v.disk, InodePlace(v, Le32(descriptor, 8), (index - 1) % v.groupInodes), 128) == Some(inode)
    ensures InodeAt(v, index) == Some(ParseInode(inode))
  {
  }

  lemma StoredDescriptorRead(v: Volume, group: nat, values: seq<nat>)
    requires ValidDisk(v.disk) && v.blockSize == 1024 && DescriptorStored(v, group, values)
    ensures |Struct(DESCRIPTOR, values)| == 32
    ensures BytesAt(v.disk, DescriptorPlace(v, group), 32) == Some(Struct(DESCRIPTOR, values))
    ensures values[2] < U32 && Le32(Struct(DESCRIPTOR, values), 8) == values[2]
  {
    var at := (1024 / v.blockSize + 1) * v.blockSize + 32 * group;
    DescriptorReadBack(values);
    DescriptorPlaceIs(v, group, at);
    RecordRead(v.disk, at, Struct(DESCRIPTOR, values));
  }

  lemma PlacedRecordRead(v: Volume, table: u32, entry: nat, at: nat, record: seq<byte>)
    requires ValidDisk(v.disk) && at == v.blockSize * table + v.inodeSize * entry
    requires HoldsRecord(v.disk, at, record) && |record| == 128
    ensures BytesAt(v.disk, InodePlace(v, table, entry), 128) == Some(record)
  {
    InodePlaceIs(v, table, entry, at);
    RecordRead(v.disk, at, record);
  }

  lemma StoredRecordRead(v: Volume, table: u32, entry: nat, values: seq<nat>)
    requires ValidDisk(v.disk) && InodeStored(v, table, entry, values)
    ensures |Struct(InodeWidths(), values)| == 128
    ensures BytesAt(v.disk, InodePlace(v, table, entry), 128) == Some(Struct(InodeWidths(), values))
  {
    InodeReadBack(values);
    PlacedRecordRead(v, table, entry, v.blockSize * table + v.inodeSize * entry, Struct(InodeWidths(), values));
  }

  /** The fields of an inode record that the read path uses. */
  lemma InodeFieldsRead(values: seq<nat>)
    requires Fit(InodeWidths(), values)
    ensures |Struct(InodeWidths(), values)| == 128
    ensures var i := ParseInode(Struct(InodeWidths(), values));
            && i.direct + [i.indirect] == values[12..25]
            && i.TotalSize() == values[2] + U32 * values[29] && i.mode == values[0]
  {
    InodeReadBack(values);
  }

  /** On a volume with blocks of 1 KiB, an inode stored where ext2 has it is the one that is read, with its length
    and its block pointers. */
  lemma StoredInodeRead(v: Volume, index: u32, descriptor: seq<nat>, inode: seq<nat>)
    requires v.Valid() && v.blockSize == 1024 && index > 0
    requires DescriptorStored(v, (index - 1) / v.groupInodes, descriptor)
    requires InodeStored(v, descriptor[2], (index - 1) % v.groupInodes, inode)
    ensures InodeAt(v, index).Some?
    ensures var i := InodeAt(v, index).value;
            && i.direct + [i.indirect] == inode[12..25]
            && i.TotalSize() == inode[2] + U32 * inode[29] && i.mode == inode[0]
  {
    StoredDescriptorRead(v, (index - 1) / v.groupInodes, descriptor);
    StoredRecordRead(v, descriptor[2], (index - 1) % v.groupInodes, inode);
    RecordsRead(v, index, Struct(DESCRIPTOR, descriptor), Struct(InodeWidths(), inode));
    InodeFieldsRead(inode);
  }

  /** The types that ext2 keeps in the upper four bits of the mode. */
  datatype FileType = Fifo | CharacterDevice | Directory | BlockDevice | Regular | Link | Socket

  function TypeCode(t: FileType): nat {
    match t
    case Fifo => 1
    case CharacterDevice => 2
    case Directory => 4
    case BlockDevice => 6
    case Regular => 8
    case Link => 10
    case Socket => 12
  }

  /** One bit of the mode is no test for a directory: block devices and sockets pass it too. */
  lemma IsDirectoryIff(i: Inode, t: FileType)
    requires i.mode / 0x1000 == TypeCode(t)
    ensures i.IsDirectory() <==> t == Directory || t == BlockDevice || t == Socket
  {
  }
}
