/** Reading bytes from the disk: kernel/x86/pata.cpp over a drive that answers with the sectors of a
  byte sequence. */
module Pata {
  import opened Memory
  import opened Wrappers

  const SECTOR := 512

  /** A disk of whole sectors. */
  predicate ValidDisk(disk: seq<byte>) {
    |disk| % SECTOR == 0
  }

  function TotalSectors(disk: seq<byte>): nat {
    |disk| / SECTOR
  }

  /** The assertions at the head of read_sectors_polling. */
  predicate SectorsReadable(disk: seq<byte>, sector: nat, count: nat) {
    && sector + count <= TotalSectors(disk)
    && (count == 0 ==> sector + TotalSectors(disk) >= 256)
    && sector <= 0xFF_FFFF
  }

  function SectorBytes(disk: seq<byte>, sector: nat, count: nat): (r: seq<byte>)
    requires sector + count <= TotalSectors(disk)
    ensures |r| == SECTOR * count
  {
    disk[SECTOR * sector..SECTOR * (sector + count)]
  }

  /** read_sectors_polling; `count` arrives as a u8. False is a failed assertion. */
  method ReadSectorsPolling(disk: seq<byte>, buffer: array<byte>, sector: nat, count: nat) returns (ok: bool)
    requires count < 256 && SECTOR * count <= buffer.Length
    modifies buffer
    ensures ok == SectorsReadable(disk, sector, count)
    ensures ok ==> buffer[..] == Overlay(old(buffer[..]), 0, SectorBytes(disk, sector, count))
  {
    if !SectorsReadable(disk, sector, count) {
      return false;
    }
    for i := 0 to count
      invariant buffer[..] == Overlay(old(buffer[..]), 0, SectorBytes(disk, sector, i))
    {
      CopyAll(buffer, SECTOR * i, disk[SECTOR * (sector + i)..SECTOR * (sector + i + 1)]);
    }
    ok := true;
  }

  /** The number of sectors read_bytes_polling asks for. */
  function SectorCount(len: nat): nat {
    Max(len / SECTOR, 1) + (if len % SECTOR > 0 then 1 else 0)
  }

  datatype ReadResult = Done(count: nat) | AssertionFailed | OutOfBounds

  /** The size of the intermediate buffer, a 32-bit product. */
  function BufferBytes(len: u32): nat {
    SECTOR * SectorCount(len) % U32
  }

  lemma BufferHoldsSectors(len: u32)
    ensures BufferBytes(len) == if len <= U32 - SECTOR then SECTOR * SectorCount(len) else 0
    ensures SECTOR * CountAsU8(len) <= BufferBytes(len)
  {
  }

  /** The copy out of the intermediate buffer stays inside it. */
  predicate CopyInBounds(offset: nat, len: u32) {
    offset % SECTOR + len <= BufferBytes(len)
  }

  /** When that is: reads shorter than a sector always, longer ones only when the end of the data does
    not spill into one more sector, and never the lengths for which the buffer's size wraps to zero. */
  lemma CopyInBoundsIff(offset: nat, len: u32)
    ensures CopyInBounds(offset, len) <==>
            && len <= U32 - SECTOR
            && (|| len < SECTOR
                || (if len % SECTOR == 0 then offset % SECTOR == 0 else offset % SECTOR + len % SECTOR <= SECTOR))
  {
    BufferHoldsSectors(len);
  }

  /** The sector count as the u8 parameter receives it. */
  function CountAsU8(len: nat): nat {
    SectorCount(len) % 256
  }

  predicate Readable(disk: seq<byte>, offset: nat, len: nat) {
    SectorsReadable(disk, offset / SECTOR, CountAsU8(len))
  }

  /** When the assertions hold, in bytes: the sectors asked for are on the disk, and the first of them is among
    the 2^24 that the register can name. A count that is cut to zero, which the drive takes for 256, only has to
    come with 256 sectors in front of the place and on the disk taken together. */
  lemma ReadableIff(disk: seq<byte>, offset: nat, len: nat)
    requires ValidDisk(disk)
    ensures var first, n := offset - offset % SECTOR, SectorCount(len) % 256;
            Readable(disk, offset, len) <==>
            && first + SECTOR * n <= |disk| && offset < 0x100_0000 * SECTOR
            && (n == 0 ==> first + |disk| >= 256 * SECTOR)
  {
  }

  /** Whole sectors can be read whenever the disk has them, below 8 GiB. */
  lemma WholeSectorsReadable(disk: seq<byte>, offset: nat, len: nat)
    requires ValidDisk(disk) && offset % SECTOR == 0 && len % SECTOR == 0 && 0 < len < 256 * SECTOR
    requires offset < 0x100_0000 * SECTOR
    ensures Readable(disk, offset, len) <==> offset + len <= |disk|
  {
    ReadableIff(disk, offset, len);
  }

  /** What the intermediate buffer holds: the sectors read, then whatever was in memory. */
  function Intermediate(disk: seq<byte>, offset: nat, len: u32, garbage: seq<byte>): (r: seq<byte>)
    requires Readable(disk, offset, len) && |garbage| == BufferBytes(len)
    ensures |r| == BufferBytes(len)
  {
    BufferHoldsSectors(len);
    Overlay(garbage, 0, SectorBytes(disk, offset / SECTOR, CountAsU8(len)))
  }

  /** The first half of read_bytes_polling: the sectors, in a fresh buffer. */
  method ReadIntermediate(disk: seq<byte>, offset: nat, len: u32)
    returns (ok: bool, intermediate: array<byte>, ghost garbage: seq<byte>)
    ensures fresh(intermediate) && intermediate.Length == |garbage| == BufferBytes(len)
    ensures ok == Readable(disk, offset, len)
    ensures ok ==> intermediate[..] == Intermediate(disk, offset, len, garbage)
  {
    var sectorCount := Max(len / SECTOR, 1);
    var overflow := len % SECTOR;
    if overflow > 0 {
      sectorCount := sectorCount + 1;
    }
    BufferHoldsSectors(len);
    intermediate := new byte[sectorCount * SECTOR % U32];
    garbage := intermediate[..];
    ok := ReadSectorsPolling(disk, intermediate, offset / SECTOR, sectorCount % 256);
  }

  /** read_bytes_polling: copy disk[offset .. offset + len] to `buffer` at `at`. `garbage` is what was in
    the memory of the intermediate buffer. */
  method ReadBytesPolling(disk: seq<byte>, buffer: array<byte>, at: nat, offset: nat, len: u32)
    returns (r: ReadResult, ghost garbage: seq<byte>)
    requires ValidDisk(disk) && at + len <= buffer.Length
    modifies buffer
    ensures r.AssertionFailed? <==> !Readable(disk, offset, len)
    ensures r.OutOfBounds? <==> Readable(disk, offset, len) && !CopyInBounds(offset, len)
    ensures r.Done? ==> r.count == len - len % SECTOR
    ensures |garbage| == BufferBytes(len)
    ensures r.Done? ==>
              var rest := offset % SECTOR;
              buffer[..] == Overlay(old(buffer[..]), at, Intermediate(disk, offset, len, garbage)[rest..rest + len])
    ensures r.Done? && SectorCount(len) < 256 ==>
              && offset + len <= |disk|
              && buffer[..] == Overlay(old(buffer[..]), at, disk[offset..offset + len])
    ensures !r.Done? ==> buffer[..] == old(buffer[..])
  {
    var restOfOffset := offset % SECTOR;
    var ok, intermediate;
    ok, intermediate, garbage := ReadIntermediate(disk, offset, len);
    if !ok {
      return AssertionFailed, garbage;
    }
    if restOfOffset + len > intermediate.Length {
      return OutOfBounds, garbage;
    }
    if SectorCount(len) < 256 {
      SliceOfSectors(disk, offset, len, garbage);
    }
    CopyAll(buffer, at, intermediate[restOfOffset..restOfOffset + len]);
    r := Done(len - len % SECTOR);
  }

  lemma SliceOfSlice(s: seq<byte>, lo: nat, hi: nat, from: nat, n: nat)
    requires lo <= hi <= |s| && lo + from + n <= hi
    ensures s[lo..hi][from..from + n] == s[lo + from..lo + from + n]
  {
    var inner := s[lo..hi];
    var a, b := inner[from..from + n], s[lo + from..lo + from + n];
    forall k | 0 <= k < n ensures a[k] == b[k] {
      assert inner[from + k] == s[lo + (from + k)];
    }
  }

  /** Below 256 sectors the bytes copied are the bytes on disk, whatever the memory held before. */
  lemma SliceOfSectors(disk: seq<byte>, offset: nat, len: u32, garbage: seq<byte>)
    requires ValidDisk(disk) && Readable(disk, offset, len) && CopyInBounds(offset, len)
    requires |garbage| == BufferBytes(len) && SectorCount(len) < 256
    ensures offset + len <= |disk|
    ensures var rest := offset % SECTOR;
            Intermediate(disk, offset, len, garbage)[rest..rest + len] == disk[offset..offset + len]
  {
    var rest := offset % SECTOR;
    var sectors := SectorBytes(disk, offset / SECTOR, SectorCount(len));
    assert |sectors| == |garbage|;
    assert Intermediate(disk, offset, len, garbage) == sectors;
    var lo := SECTOR * (offset / SECTOR);
    SliceOfSlice(disk, lo, lo + SECTOR * SectorCount(len), rest, len);
    assert lo + rest == offset;
  }

  /** From 256 sectors on the count does not fit the u8, and the end of the data is never read: for
    some memory contents the copy differs from the disk. */
  lemma CountWrapsAt256(disk: seq<byte>, offset: nat, len: u32) returns (garbage: seq<byte>)
    requires ValidDisk(disk) && Readable(disk, offset, len) && CopyInBounds(offset, len)
    requires SectorCount(len) >= 256 && offset + len <= |disk|
    ensures |garbage| == BufferBytes(len)
    ensures var rest := offset % SECTOR;
            Intermediate(disk, offset, len, garbage)[rest..rest + len] != disk[offset..offset + len]
  {
    var rest := offset % SECTOR;
    var last := disk[offset + len - 1];
    var other: byte := if last == 0 then 1 else 0;
    BufferHoldsSectors(len);
    garbage := seq(BufferBytes(len), _ => other);
    assert Intermediate(disk, offset, len, garbage)[rest..rest + len][len - 1] == other;
    assert disk[offset..offset + len][len - 1] == last;
  }
}
