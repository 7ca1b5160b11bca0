/** Page directory and page table entries: kernel/x86/paging.cpp.

  `TableWord` and `TableEntryOf` (and their directory twins) say which bit holds which field; the
  methods or the word together and test it bit by bit as the source does. */
module Paging {
  import opened Wrappers
  import opened Bits

  type bits3 = x: int | 0 <= x < 8

  datatype PageTableEntry = PageTableEntry(
    present: bool, readWrite: bool, user: bool, writeThrough: bool, cacheDisable: bool, accessed: bool,
    dirty: bool, zero: bool, isGlobal: bool, available: bits3, pageAddress: nat)

  datatype PageDirectoryEntry = PageDirectoryEntry(
    present: bool, readWrite: bool, user: bool, writeThrough: bool, cacheDisable: bool, accessed: bool,
    zero: bool, isLarge: bool, isGlobal: bool, available: bits3, pageTableAddress: nat)

  const NO_TABLE_ENTRY := PageTableEntry(false, false, false, false, false, false, false, false, false, 0, 0)
  const NO_DIRECTORY_ENTRY := PageDirectoryEntry(false, false, false, false, false, false, false, false, false, 0, 0)

  /** Bits 12 to 31 of a word or address, in place. */
  function PageOf(w: nat): nat {
    Shl(Low(Shr(w, 12), 20), 12)
  }

  function Available(w: nat): (v: bits3) {
    LowBound(Shr(w, 9), 3);
    Weights();
    Low(Shr(w, 9), 3)
  }

  /** Entry to word: the dirty flag goes to bit 7, bit 6 stays clear and `zero` is dropped. */
  function TableWord(e: PageTableEntry): nat {
    Stack(TableFlags(e), 8 * Low(Shr(e.pageAddress, 12), 20) + e.available)
  }

  /** Bits 0 to 8 of an encoded table entry. */
  function TableFlags(e: PageTableEntry): seq<bool> {
    [e.present, e.readWrite, e.user, e.writeThrough, e.cacheDisable, e.accessed, false, e.dirty, e.isGlobal]
  }

  /** Word to entry: the dirty flag comes from bit 6 and `zero` from bit 7. */
  function TableEntryOf(w: nat): PageTableEntry {
    PageTableEntry(Bit(w, 0), Bit(w, 1), Bit(w, 2), Bit(w, 3), Bit(w, 4), Bit(w, 5), Bit(w, 6), Bit(w, 7),
                   Bit(w, 8), Available(w), PageOf(w))
  }

  function DirectoryWord(e: PageDirectoryEntry): nat {
    Stack(DirectoryFlags(e), 8 * Low(Shr(e.pageTableAddress, 12), 20) + e.available)
  }

  function DirectoryFlags(e: PageDirectoryEntry): seq<bool> {
    [e.present, e.readWrite, e.user, e.writeThrough, e.cacheDisable, e.accessed, false, e.isLarge, e.isGlobal]
  }

  function DirectoryEntryOf(w: nat): PageDirectoryEntry {
    PageDirectoryEntry(Bit(w, 0), Bit(w, 1), Bit(w, 2), Bit(w, 3), Bit(w, 4), Bit(w, 5), Bit(w, 6), Bit(w, 7),
                       Bit(w, 8), Available(w), PageOf(w))
  }

  // ---------- Pages ----------

  /** A page-aligned 32-bit address is its own page. */
  lemma PageOfAligned(a: u32)
    requires a % 4096 == 0
    ensures PageOf(a) == a
  {
    SplitPage(a);
    var s, l := Shr(a, 12), Low(a, 12);
    assert l == 0;
    Weights();
    LowOfSmall(s, 20);
  }

  lemma SplitPage(a: nat)
    ensures a == 4096 * Shr(a, 12) + Low(a, 12) && Low(a, 12) < 4096
    ensures Shl(Shr(a, 12), 12) == 4096 * Shr(a, 12)
  {
    SplitAt(a, 12);
    ShlIsProduct(Shr(a, 12), 12);
    LowBound(a, 12);
    Weights();
  }

  lemma PageIsAligned(w: nat)
    ensures PageOf(w) % 4096 == 0 && PageOf(w) < U32
  {
    ShlIsProduct(Low(Shr(w, 12), 20), 12);
    LowBound(Shr(w, 12), 20);
    Weights();
  }

  /** What stands above nine flags: three available bits and the page number. */
  lemma AboveNineFlags(flags: seq<bool>, page: nat, available: bits3)
    requires |flags| == 9 && page < 0x10_0000
    ensures var w := Stack(flags, 8 * page + available);
            && w < U32
            && (forall k :: 0 <= k < 9 ==> Bit(w, k) == flags[k])
            && Available(w) == available
            && PageOf(w) == Shl(page, 12)
  {
    var x := 8 * page + available;
    var w := Stack(flags, x);
    StackBits(flags, x);
    StackBound(flags, x);
    ShlIsProduct(x + 1, 9);
    Weights();
    ThreeLowBits(page, available);
    ShrAgain(w, 9, 3);
    Weights();
    LowOfSmall(page, 20);
  }

  lemma ThreeLowBits(page: nat, available: bits3)
    ensures Low(8 * page + available, 3) == available && Shr(8 * page + available, 3) == page
  {
    var x := 8 * page + available;
    assert x / 2 == 4 * page + available / 2;
    assert x / 2 / 2 == 2 * page + available / 2 / 2;
    assert x / 2 / 2 / 2 == page;
    assert Shr(x, 3) == Shr(x / 2, 2) == Shr(x / 2 / 2, 1) == Shr(x / 2 / 2 / 2, 0);
    assert Low(x, 3) == 2 * Low(x / 2, 2) + x % 2;
    assert Low(x / 2, 2) == 2 * Low(x / 2 / 2, 1) + x / 2 % 2;
    assert Low(x / 2 / 2, 1) == 2 * Low(x / 2 / 2 / 2, 0) + x / 2 / 2 % 2;
  }

  /** Every 32-bit word is nine flags, three available bits and a page number. */
  lemma WordParts(w: u32)
    ensures Shr(w, 9) == 8 * Shr(w, 12) + Available(w)
    ensures Shr(w, 12) < 0x10_0000 && Low(Shr(w, 12), 20) == Shr(w, 12)
  {
    SplitPage(w);
    Weights();
    LowOfSmall(Shr(w, 12), 20);
    SplitAt(Shr(w, 9), 3);
    ShrAgain(w, 9, 3);
    ShlIsProduct(Shr(w, 12), 3);
    Weights();
  }

  // ---------- Encoding against decoding ----------

  lemma TableWordFields(e: PageTableEntry)
    ensures var w := TableWord(e);
            && w < U32
            && (forall k :: 0 <= k < 9 ==> Bit(w, k) == TableFlags(e)[k])
            && Available(w) == e.available && PageOf(w) == PageOf(e.pageAddress)
  {
    LowBound(Shr(e.pageAddress, 12), 20);
    Weights();
    AboveNineFlags(TableFlags(e), Low(Shr(e.pageAddress, 12), 20), e.available);
  }

  lemma NineBitsNamed(w: nat, flags: seq<bool>)
    requires |flags| == 9 && forall k :: 0 <= k < 9 ==> Bit(w, k) == flags[k]
    ensures Bit(w, 0) == flags[0] && Bit(w, 1) == flags[1] && Bit(w, 2) == flags[2] && Bit(w, 3) == flags[3]
    ensures Bit(w, 4) == flags[4] && Bit(w, 5) == flags[5] && Bit(w, 6) == flags[6] && Bit(w, 7) == flags[7]
    ensures Bit(w, 8) == flags[8]
  {
  }

  /** The bits of a table entry's word by number, as section 4.3 of the Intel SDM, volume 3A, has them, but for the
    dirty flag, which belongs into bit 6. */
  lemma TableBits(e: PageTableEntry)
    ensures var w := TableWord(e);
            && Bit(w, 0) == e.present && Bit(w, 1) == e.readWrite && Bit(w, 2) == e.user
            && Bit(w, 3) == e.writeThrough && Bit(w, 4) == e.cacheDisable && Bit(w, 5) == e.accessed
            && !Bit(w, 6) && Bit(w, 7) == e.dirty && Bit(w, 8) == e.isGlobal
            && Available(w) == e.available && PageOf(w) == PageOf(e.pageAddress)
  {
    TableWordFields(e);
    NineBitsNamed(TableWord(e), TableFlags(e));
  }

  /** Decoding an encoded table entry: everything comes back except that the dirty flag is read as
    `zero`, because the two directions use different bits for it. */
  lemma TableDecodeEncode(e: PageTableEntry)
    ensures TableEntryOf(TableWord(e)) == e.(dirty := false, zero := e.dirty, pageAddress := PageOf(e.pageAddress))
    ensures TableEntryOf(TableWord(e)) == e <==> !e.dirty && !e.zero && PageOf(e.pageAddress) == e.pageAddress
  {
    TableWordFields(e);
  }

  /** The flags of a decoded table word: bit 6 has moved to bit 7. */
  lemma FlagsOfTableEntry(w: nat, k: nat)
    requires k < 9
    ensures TableFlags(TableEntryOf(w))[k] == if k == 6 then false else if k == 7 then Bit(w, 6) else Bit(w, k)
  {
  }

  /** Encoding a decoded table word moves bit 6 to bit 7 and keeps the rest. */
  lemma TableReencoded(w: u32)
    ensures var v := TableWord(TableEntryOf(w));
            && v < U32 && PageOf(v) == PageOf(w) && Available(v) == Available(w)
            && (forall k :: 0 <= k < 9 ==>
                  Bit(v, k) == if k == 6 then false else if k == 7 then Bit(w, 6) else Bit(w, k))
  {
    var e := TableEntryOf(w);
    TableWordFields(e);
    PageOfPage(w);
    forall k | 0 <= k < 9
      ensures Bit(TableWord(e), k) == if k == 6 then false else if k == 7 then Bit(w, 6) else Bit(w, k)
    {
      FlagsOfTableEntry(w, k);
    }
  }

  lemma PageOfPage(w: nat)
    ensures PageOf(PageOf(w)) == PageOf(w)
  {
    ShrOfShl(Low(Shr(w, 12), 20), 12);
    LowBound(Shr(w, 12), 20);
    LowOfSmall(Low(Shr(w, 12), 20), 20);
  }

  /** Words with the same fields are the same word. */
  lemma SameFieldsSameWord(v: u32, w: u32)
    requires forall k :: 0 <= k < 9 ==> Bit(v, k) == Bit(w, k)
    requires Available(v) == Available(w) && PageOf(v) == PageOf(w)
    ensures v == w
  {
    var flags := seq(9, k requires 0 <= k < 9 => Bit(w, k));
    StackOfBits(v, flags);
    StackOfBits(w, flags);
    WordParts(v);
    WordParts(w);
    SplitPage(v);
    SplitPage(w);
  }

  /** A table word survives decoding and encoding exactly when bits 6 and 7 are clear. */
  lemma TableEncodeDecode(w: u32)
    ensures TableWord(TableEntryOf(w)) == w <==> !Bit(w, 6) && !Bit(w, 7)
  {
    TableReencoded(w);
    if !Bit(w, 6) && !Bit(w, 7) {
      SameFieldsSameWord(TableWord(TableEntryOf(w)), w);
    }
  }

  lemma DirectoryWordFields(e: PageDirectoryEntry)
    ensures var w := DirectoryWord(e);
            && w < U32
            && (forall k :: 0 <= k < 9 ==> Bit(w, k) == DirectoryFlags(e)[k])
            && Available(w) == e.available && PageOf(w) == PageOf(e.pageTableAddress)
  {
    LowBound(Shr(e.pageTableAddress, 12), 20);
    Weights();
    AboveNineFlags(DirectoryFlags(e), Low(Shr(e.pageTableAddress, 12), 20), e.available);
  }

  /** The bits of a directory entry's word by number. */
  lemma DirectoryBits(e: PageDirectoryEntry)
    ensures var w := DirectoryWord(e);
            && Bit(w, 0) == e.present && Bit(w, 1) == e.readWrite && Bit(w, 2) == e.user
            && Bit(w, 3) == e.writeThrough && Bit(w, 4) == e.cacheDisable && Bit(w, 5) == e.accessed
            && !Bit(w, 6) && Bit(w, 7) == e.isLarge && Bit(w, 8) == e.isGlobal
            && Available(w) == e.available && PageOf(w) == PageOf(e.pageTableAddress)
  {
    DirectoryWordFields(e);
    NineBitsNamed(DirectoryWord(e), DirectoryFlags(e));
  }

  lemma DirectoryDecodeEncode(e: PageDirectoryEntry)
    ensures DirectoryEntryOf(DirectoryWord(e)) == e.(zero := false, pageTableAddress := PageOf(e.pageTableAddress))
    ensures DirectoryEntryOf(DirectoryWord(e)) == e <==> !e.zero && PageOf(e.pageTableAddress) == e.pageTableAddress
  {
    DirectoryWordFields(e);
  }

  lemma FlagsOfDirectoryEntry(w: nat, k: nat)
    requires k < 9
    ensures DirectoryFlags(DirectoryEntryOf(w))[k] == if k == 6 then false else Bit(w, k)
  {
  }

  /** Encoding a decoded directory word clears bit 6 and keeps the rest. */
  lemma DirectoryReencoded(w: u32)
    ensures var v := DirectoryWord(DirectoryEntryOf(w));
            && v < U32 && PageOf(v) == PageOf(w) && Available(v) == Available(w)
            && (forall k :: 0 <= k < 9 ==> Bit(v, k) == if k == 6 then false else Bit(w, k))
  {
    var e := DirectoryEntryOf(w);
    DirectoryWordFields(e);
    PageOfPage(w);
    forall k | 0 <= k < 9 ensures Bit(DirectoryWord(e), k) == if k == 6 then false else Bit(w, k) {
      FlagsOfDirectoryEntry(w, k);
    }
  }

  /** A directory word survives decoding and encoding exactly when bit 6 is clear. */
  lemma DirectoryEncodeDecode(w: u32)
    ensures DirectoryWord(DirectoryEntryOf(w)) == w <==> !Bit(w, 6)
  {
    DirectoryReencoded(w);
    if !Bit(w, 6) {
      SameFieldsSameWord(DirectoryWord(DirectoryEntryOf(w)), w);
    }
  }

  // ---------- The methods of the source ----------

  /** `& 0xFFFFF000` */
  lemma MaskPage(a: nat)
    ensures And(a, 0xFFFF_F000) == PageOf(a)
  {
    Weights();
    TwentyOnes();
    ShlIsProduct(0xF_FFFF, 12);
    AndShifted(a, 0xF_FFFF, 12);
    AndOnes(Shr(a, 12), 20);
  }

  lemma TwentyOnes()
    ensures Ones(20) == 0xF_FFFF
  {
    assert Ones(5) == 31;
    assert Ones(10) == 1023;
    assert Ones(15) == 32 * Ones(10) + 31;
    assert Ones(20) == 32 * Ones(15) + 31;
  }

  /** `out |= flag << k` while nothing from bit k up to the page is set. */
  method OrFlagAt(word: nat, f: bool, k: nat, ghost before: seq<bool>, ghost p: nat)
    returns (out: nat, ghost done: seq<bool>)
    requires |before| == k < 12 && word == Stack(before, Shl(p, 12 - |before|))
    ensures done == before + [f] && out == Stack(done, Shl(p, 12 - |done|))
  {
    OrNextFlag(before, f, p, 12 - |before|);
    out := Or(word, Shl(Flag(f), k));
    done := before + [f];
  }

  method OrThreeFlags(word: nat, f: bool, g: bool, h: bool, k: nat, ghost before: seq<bool>, ghost p: nat)
    returns (out: nat, ghost done: seq<bool>)
    requires |before| == k < 10 && word == Stack(before, Shl(p, 12 - |before|))
    ensures done == before + [f, g, h] && out == Stack(done, Shl(p, 12 - |done|))
  {
    out, done := OrFlagAt(word, f, k, before, p);
    out, done := OrFlagAt(out, g, k + 1, done, p);
    out, done := OrFlagAt(out, h, k + 2, done, p);
    assert done == before + [f, g, h];
  }

  method MaskAddress(address: nat) returns (word: nat)
    ensures var none: seq<bool> := []; word == Stack(none, Shl(Low(Shr(address, 12), 20), 12 - |none|))
  {
    MaskPage(address);
    word := And(address, 0xFFFF_F000);
  }

  /** The head both encoders share: the address and bits 0 to 5. */
  method OrLowerFields(address: nat, ghost p: nat, bit0: bool, bit1: bool, bit2: bool,
                       bit3: bool, bit4: bool, bit5: bool)
    returns (word: nat, ghost done: seq<bool>)
    requires p == Low(Shr(address, 12), 20)
    ensures done == [bit0, bit1, bit2] + [bit3, bit4, bit5] && |done| == 6
    ensures word == Stack(done, Shl(p, 12 - |done|))
  {
    done := [];
    word := MaskAddress(address);
    word, done := OrThreeFlags(word, bit0, bit1, bit2, 0, done, p);
    assert done == [bit0, bit1, bit2];
    word, done := OrThreeFlags(word, bit3, bit4, bit5, 3, done, p);
  }

  lemma TableWordAssembled(e: PageTableEntry, lower: seq<bool>, p: nat)
    requires lower == [e.present, e.readWrite, e.user] + [e.writeThrough, e.cacheDisable, e.accessed]
    requires p == Low(Shr(e.pageAddress, 12), 20)
    ensures Stack(lower + [false, e.dirty, e.isGlobal], 8 * p + e.available) == TableWord(e)
    ensures TableWord(e) < U32
  {
    assert lower == [e.present, e.readWrite, e.user, e.writeThrough, e.cacheDisable, e.accessed];
    assert lower + [false, e.dirty, e.isGlobal] == TableFlags(e);
    TableWordFields(e);
  }

  method TableEntryAsU32(e: PageTableEntry) returns (out: u32)
    requires e.pageAddress % 4096 == 0
    ensures out == TableWord(e)
  {
    ghost var p := Low(Shr(e.pageAddress, 12), 20);
    var word, done := OrLowerFields(e.pageAddress, p, e.present, e.readWrite, e.user,
                                    e.writeThrough, e.cacheDisable, e.accessed);
    word := OrUpperFields(word, done, p, e.dirty, e.isGlobal, e.available);
    TableWordAssembled(e, done, p);
    out := word;
  }

  lemma DirectoryWordAssembled(e: PageDirectoryEntry, lower: seq<bool>, p: nat)
    requires lower == [e.present, e.readWrite, e.user] + [e.writeThrough, e.cacheDisable, e.accessed]
    requires p == Low(Shr(e.pageTableAddress, 12), 20)
    ensures Stack(lower + [false, e.isLarge, e.isGlobal], 8 * p + e.available) == DirectoryWord(e)
    ensures DirectoryWord(e) < U32
  {
    assert lower == [e.present, e.readWrite, e.user, e.writeThrough, e.cacheDisable, e.accessed];
    assert lower + [false, e.isLarge, e.isGlobal] == DirectoryFlags(e);
    DirectoryWordFields(e);
  }

  method DirectoryEntryAsU32(e: PageDirectoryEntry) returns (out: u32)
    requires e.pageTableAddress % 4096 == 0
    ensures out == DirectoryWord(e)
  {
    ghost var p := Low(Shr(e.pageTableAddress, 12), 20);
    var word, done := OrLowerFields(e.pageTableAddress, p, e.present, e.readWrite, e.user,
                                    e.writeThrough, e.cacheDisable, e.accessed);
    word := OrUpperFields(word, done, p, e.isLarge, e.isGlobal, e.available);
    DirectoryWordAssembled(e, done, p);
    out := word;
  }

  /** The tail both encoders share: bits 7 and 8 and the available bits; bit 6 is left clear. */
  method OrUpperFields(word: nat, ghost lower: seq<bool>, ghost p: nat, bit7: bool, bit8: bool, available: bits3)
    returns (out: nat)
    requires |lower| == 6 && word == Stack(lower, Shl(p, 12 - |lower|))
    ensures out == Stack(lower + [false, bit7, bit8], 8 * p + available)
  {
    ghost var done: seq<bool>;
    SkipFlag(lower, p);
    out, done := OrFlagAt(word, bit7, 7, lower + [false], p);
    out, done := OrFlagAt(out, bit8, 8, done, p);
    assert done == lower + [false, bit7, bit8];
    OrAvailable(done, p, available);
    out := Or(out, Shl(available, 9));
  }

  lemma SkipFlag(flags: seq<bool>, p: nat)
    requires |flags| < 12
    ensures Stack(flags, Shl(p, 12 - |flags|)) == Stack(flags + [false], Shl(p, 12 - |flags + [false]|))
  {
    OrNextFlag(flags, false, p, 12 - |flags|);
    ZeroShift(|flags|);
    ZeroOperand(Stack(flags, Shl(p, 12 - |flags|)));
  }

  lemma OrAvailable(flags: seq<bool>, p: nat, available: bits3)
    requires |flags| == 9
    ensures Or(Stack(flags, Shl(p, 12 - |flags|)), Shl(available, |flags|)) == Stack(flags, 8 * p + available)
  {
    Weights();
    ShlIsProduct(p, 3);
    ThreeLowBits(p, 0);
    ThreeLowBits(0, available);
    OrAboveFlags(flags, Shl(p, 3), available, 3);
  }

  function OneShifted(i: nat): nat
    requires i < 9
  {
    [0x001, 0x002, 0x004, 0x008, 0x010, 0x020, 0x040, 0x080, 0x100][i]
  }

  ghost function NineBits(w: nat): seq<bool> {
    [Bit(w, 0), Bit(w, 1), Bit(w, 2), Bit(w, 3), Bit(w, 4), Bit(w, 5), Bit(w, 6), Bit(w, 7), Bit(w, 8)]
  }

  lemma ShiftedOne(i: nat)
    requires i < 9
    ensures Shl(1, i) == OneShifted(i)
  {
    assert Shl(1, 0) == 1 && Shl(1, 1) == 2 && Shl(1, 2) == 4 && Shl(1, 3) == 8 && Shl(1, 4) == 16
        && Shl(1, 5) == 32 && Shl(1, 6) == 64 && Shl(1, 7) == 128 && Shl(1, 8) == 256;
  }

  lemma MaskedBit(w: nat, i: nat)
    requires i < 9
    ensures And(w, Shl(1, i)) == if NineBits(w)[i] then OneShifted(i) else 0
  {
    AndOneBit(w, i);
    ShiftedOne(i);
    ZeroShift(i);
    assert NineBits(w)[i] == Bit(w, i);
  }

  lemma AvailableByMask(w: nat)
    ensures And(Shr(w, 9), 7) == Available(w)
  {
    assert Ones(3) == 7;
    AndOnes(Shr(w, 9), 3);
  }

  /** The flags among the lowest `n` of nine bits; the state of the decoding loop after `n` rounds. */
  ghost function TableFlagsBelow(bits: seq<bool>, n: nat): PageTableEntry
    requires |bits| == 9
  {
    PageTableEntry(n > 0 && bits[0], n > 1 && bits[1], n > 2 && bits[2], n > 3 && bits[3], n > 4 && bits[4],
                n > 5 && bits[5], n > 6 && bits[6], n > 7 && bits[7], n > 8 && bits[8], 0, 0)
  }

  /** The switch of the decoding loop. */
  method SetTableFlag(masked: nat, before: PageTableEntry, ghost bits: seq<bool>, ghost i: nat)
    returns (out: PageTableEntry)
    requires |bits| == 9 && i < 9 && before == TableFlagsBelow(bits, i)
    requires masked == if bits[i] then OneShifted(i) else 0
    ensures out == TableFlagsBelow(bits, i + 1)
  {
    out := before;
    match masked
    case 0 =>
    case 0x001 => out := out.(present := true);
    case 0x002 => out := out.(readWrite := true);
    case 0x004 => out := out.(user := true);
    case 0x008 => out := out.(writeThrough := true);
    case 0x010 => out := out.(cacheDisable := true);
    case 0x020 => out := out.(accessed := true);
    case 0x040 => out := out.(dirty := true);
    case 0x080 => out := out.(zero := true);
    case 0x100 => out := out.(isGlobal := true);
    case _ => assert false;
  }

  method TableEntryFromU32(from: nat) returns (out: PageTableEntry)
    ensures out == TableEntryOf(from)
  {
    out := NO_TABLE_ENTRY;
    ghost var bits := NineBits(from);
    for i := 0 to 9
      invariant out == TableFlagsBelow(bits, i)
    {
      MaskedBit(from, i);
      out := SetTableFlag(And(from, Shl(1, i)), out, bits, i);
    }
    AvailableByMask(from);
    MaskPage(from);
    out := out.(available := And(Shr(from, 9), 7), pageAddress := And(from, 0xFFFF_F000));
  }

  /** The flags among the lowest `n` of nine bits; the state of the decoding loop after `n` rounds. */
  ghost function DirectoryFlagsBelow(bits: seq<bool>, n: nat): PageDirectoryEntry
    requires |bits| == 9
  {
    PageDirectoryEntry(n > 0 && bits[0], n > 1 && bits[1], n > 2 && bits[2], n > 3 && bits[3], n > 4 && bits[4],
                n > 5 && bits[5], n > 6 && bits[6], n > 7 && bits[7], n > 8 && bits[8], 0, 0)
  }

  /** The switch of the decoding loop. */
  method SetDirectoryFlag(masked: nat, before: PageDirectoryEntry, ghost bits: seq<bool>, ghost i: nat)
    returns (out: PageDirectoryEntry)
    requires |bits| == 9 && i < 9 && before == DirectoryFlagsBelow(bits, i)
    requires masked == if bits[i] then OneShifted(i) else 0
    ensures out == DirectoryFlagsBelow(bits, i + 1)
  {
    out := before;
    match masked
    case 0 =>
    case 0x001 => out := out.(present := true);
    case 0x002 => out := out.(readWrite := true);
    case 0x004 => out := out.(user := true);
    case 0x008 => out := out.(writeThrough := true);
    case 0x010 => out := out.(cacheDisable := true);
    case 0x020 => out := out.(accessed := true);
    case 0x040 => out := out.(zero := true);
    case 0x080 => out := out.(isLarge := true);
    case 0x100 => out := out.(isGlobal := true);
    case _ => assert false;
  }

  method DirectoryEntryFromU32(from: nat) returns (out: PageDirectoryEntry)
    ensures out == DirectoryEntryOf(from)
  {
    out := NO_DIRECTORY_ENTRY;
    ghost var bits := NineBits(from);
    for i := 0 to 9
      invariant out == DirectoryFlagsBelow(bits, i)
    {
      MaskedBit(from, i);
      out := SetDirectoryFlag(And(from, Shl(1, i)), out, bits, i);
    }
    AvailableByMask(from);
    MaskPage(from);
    out := out.(available := And(Shr(from, 9), 7), pageTableAddress := And(from, 0xFFFF_F000));
  }
}
