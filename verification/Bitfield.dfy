/** The packed bitfield of bustd/bitfield.hpp: one bit per index, eight to a byte. */
module Bitfields {

  function Mask(k: nat): bv8
    requires k < 8
  {
    (1 as bv8) << k
  }

  predicate BitOf(b: bv8, k: nat)
    requires k < 8
  {
    b & Mask(k) != 0
  }

  /** The byte after `data &= ~shifted; if (v) data |= shifted`. */
  function Stored(b: bv8, shifted: bv8, v: bool): bv8 {
    var cleared := b & !shifted;
    if v then cleared | shifted else cleared
  }

  lemma MaskValue(k: nat)
    requires k < 8
    ensures Mask(k) == [1, 2, 4, 8, 16, 32, 64, 128][k]
  {
    assert Mask(0) == 1 && Mask(1) == 2 && Mask(2) == 4 && Mask(3) == 8
        && Mask(4) == 16 && Mask(5) == 32 && Mask(6) == 64 && Mask(7) == 128;
  }

  /** Storing a bit changes that bit and no other. */
  lemma BitReplaced(b: bv8, k: nat, j: nat, v: bool)
    requires k < 8 && j < 8
    ensures BitOf(Stored(b, Mask(k), v), j) == if j == k then v else BitOf(b, j)
  {
    MaskValue(k);
    MaskValue(j);
  }

  /** The bits of a byte sequence, in index order. */
  function BitsOf(bytes: seq<bv8>): (s: seq<bool>)
    ensures |s| == 8 * |bytes|
  {
    seq(8 * |bytes|, i requires 0 <= i < 8 * |bytes| => BitOf(bytes[i / 8], i % 8))
  }

  /** Storing one bit of one byte replaces one element of the bit sequence. */
  lemma BitStored(bytes: seq<bv8>, i: nat, v: bool)
    requires i / 8 < |bytes|
    ensures BitsOf(bytes[i / 8 := Stored(bytes[i / 8], Mask(i % 8), v)]) == BitsOf(bytes)[i := v]
  {
    var bytes' := bytes[i / 8 := Stored(bytes[i / 8], Mask(i % 8), v)];
    var left, right := BitsOf(bytes'), BitsOf(bytes)[i := v];
    forall j | 0 <= j < 8 * |bytes| ensures left[j] == right[j] {
      if j / 8 == i / 8 {
        BitReplaced(bytes[i / 8], i % 8, j % 8, v);
      }
    }
  }

  function BytesFor(size: nat): nat {
    size / 8 + (if size % 8 != 0 then 1 else 0)
  }

  /** The source's check `i <= SIZE` keeps the byte access in bounds for every index it lets through,
    except for `i == SIZE` when SIZE is a multiple of eight. */
  lemma BoundsCheckExact(size: nat, i: nat)
    requires size > 0
    ensures i <= size ==> (i / 8 < BytesFor(size) <==> i < size || size % 8 != 0)
  {
  }

  class Bitfield {
    const size: nat
    const data: array<bv8>

    ghost predicate Valid() {
      size > 0 && data.Length == BytesFor(size)
    }

    /** The bits in index order, padding included. */
    ghost function Bits(): (s: seq<bool>)
      reads data
      ensures |s| == 8 * data.Length
    {
      BitsOf(data[..])
    }

    constructor (size: nat)
      requires size > 0
      ensures Valid() && fresh(data) && this.size == size
      ensures forall i :: 0 <= i < size ==> !Bits()[i]
    {
      this.size := size;
      data := new bv8[BytesFor(size)](_ => 0);
    }

    method At(i: nat) returns (b: bool)
      requires i / 8 < data.Length
      ensures b == Bits()[i]
    {
      var dataOffset := i / 8;
      var byteOffset := i % 8;
      var shifted := (1 as bv8) << byteOffset;
      b := data[dataOffset] & shifted != 0;
    }

    method Replace(i: nat, v: bool) returns (oldValue: bool)
      requires i / 8 < data.Length
      modifies data
      ensures Bits() == old(Bits())[i := v]
      ensures oldValue == old(Bits()[i])
    {
      var dataOffset := i / 8;
      var byteOffset := i % 8;
      var shifted := (1 as bv8) << byteOffset;
      BitStored(data[..], i, v);
      oldValue := data[dataOffset] & shifted != 0;
      data[dataOffset] := Stored(data[dataOffset], shifted, v);
    }
  }
}
