/** Bitwise operators on natural numbers, halving by halving, and the facts about single bits and
  fields of a word that the encoders need. */
module Bits {

  function And(a: nat, b: nat): nat {
    if a == 0 || b == 0 then 0 else 2 * And(a / 2, b / 2) + (if a % 2 == 1 && b % 2 == 1 then 1 else 0)
  }

  function Or(a: nat, b: nat): nat
    decreases a + b
  {
    if a == 0 && b == 0 then 0 else 2 * Or(a / 2, b / 2) + (if a % 2 == 1 || b % 2 == 1 then 1 else 0)
  }

  /** a >> k */
  function Shr(a: nat, k: nat): nat {
    if k == 0 then a else Shr(a / 2, k - 1)
  }

  /** a << k, without truncation */
  function Shl(a: nat, k: nat): nat {
    if k == 0 then a else 2 * Shl(a, k - 1)
  }

  predicate Bit(a: nat, k: nat) {
    Shr(a, k) % 2 == 1
  }

  /** The lowest `k` bits. */
  function Low(a: nat, k: nat): nat {
    if k == 0 then 0 else 2 * Low(a / 2, k - 1) + a % 2
  }

  /** A mask of `k` ones. */
  function Ones(k: nat): nat {
    if k == 0 then 0 else 2 * Ones(k - 1) + 1
  }

  function Flag(f: bool): nat {
    if f then 1 else 0
  }

  lemma {:induction false} ShrStep(a: nat, k: nat)
    ensures Shr(a, k) == 2 * Shr(a, k + 1) + Flag(Bit(a, k))
  {
    if k > 0 {
      ShrStep(a / 2, k - 1);
    } else {
      assert Shr(a, 1) == Shr(a / 2, 0);
    }
  }

  lemma {:induction false} ZeroOperand(a: nat)
    ensures Or(a, 0) == a && And(a, 0) == 0
  {
    if a > 0 {
      ZeroOperand(a / 2);
    }
  }

  lemma {:induction false} ZeroShift(k: nat)
    ensures Shr(0, k) == 0 && Shl(0, k) == 0 && Low(0, k) == 0
  {
    if k > 0 {
      ZeroShift(k - 1);
    }
  }

  lemma Weights()
    ensures Shl(1, 3) == 8 && Shl(1, 9) == 512 && Shl(1, 12) == 4096 && Shl(1, 20) == 0x10_0000
  {
    assert Shl(1, 8) == 256;
    assert Shl(1, 16) == 0x1_0000 by {
      assert Shl(1, 10) == 2 * 2 * Shl(1, 8);
      assert Shl(1, 12) == 2 * 2 * Shl(1, 10);
      assert Shl(1, 14) == 2 * 2 * Shl(1, 12);
      assert Shl(1, 16) == 2 * 2 * Shl(1, 14);
    }
    assert Shl(1, 18) == 2 * 2 * Shl(1, 16);
    assert Shl(1, 20) == 2 * 2 * Shl(1, 18);
  }

  /** Masking with a shifted mask acts on the shifted word. */
  lemma {:induction false} AndShifted(a: nat, m: nat, k: nat)
    ensures And(a, Shl(m, k)) == Shl(And(Shr(a, k), m), k)
  {
    if k > 0 {
      AndShifted(a / 2, m, k - 1);
      if a == 0 {
        ZeroShift(k);
      } else if m == 0 {
        ZeroShift(k);
        ZeroOperand(a);
        ZeroOperand(Shr(a, k));
      }
    }
  }

  /** Masking with `k` ones keeps the lowest `k` bits. */
  lemma {:induction false} AndOnes(a: nat, k: nat)
    ensures And(a, Ones(k)) == Low(a, k)
  {
    if k > 0 {
      AndOnes(a / 2, k - 1);
      ZeroShift(k);
    } else {
      ZeroOperand(a);
    }
  }

  /** Testing one bit by masking with a shifted one. */
  lemma AndOneBit(a: nat, k: nat)
    ensures And(a, Shl(1, k)) == Shl(Flag(Bit(a, k)), k)
  {
    AndShifted(a, 1, k);
    assert Ones(1) == 1;
    AndOnes(Shr(a, k), 1);
    assert Low(Shr(a, k), 1) == Shr(a, k) % 2;
  }

  /** A word is its lowest `k` bits below the rest. */
  lemma {:induction false} SplitAt(a: nat, k: nat)
    ensures a == Shl(Shr(a, k), k) + Low(a, k)
  {
    if k > 0 {
      SplitAt(a / 2, k - 1);
    }
  }

  /** Or-ing a flag into a clear bit adds its weight. */
  lemma {:induction false} OrFlag(a: nat, f: bool, k: nat)
    requires !Bit(a, k)
    ensures Or(a, Shl(Flag(f), k)) == a + Shl(Flag(f), k)
  {
    if !f {
      ZeroShift(k);
      ZeroOperand(a);
    } else if k > 0 {
      OrFlag(a / 2, f, k - 1);
    } else {
      ZeroOperand(a / 2);
    }
  }

  lemma {:induction false} OrBelow(a: nat, v: nat, width: nat)
    requires Low(a, width) == 0 && Shr(v, width) == 0
    ensures Or(a, v) == a + v
  {
    if width > 0 {
      OrBelow(a / 2, v / 2, width - 1);
    } else {
      ZeroOperand(a);
    }
  }

  /** Or-ing a value of `width` bits into an empty field at position `k` adds it. */
  lemma {:induction false} OrField(a: nat, v: nat, k: nat, width: nat)
    requires Low(Shr(a, k), width) == 0 && Shr(v, width) == 0
    ensures Or(a, Shl(v, k)) == a + Shl(v, k)
  {
    if k > 0 {
      OrField(a / 2, v, k - 1, width);
      if a == 0 && Shl(v, k) == 0 {
        assert Or(a, Shl(v, k)) == 0;
      }
    } else {
      OrBelow(a, v, width);
    }
  }

  lemma {:induction false} ShrAgain(a: nat, j: nat, k: nat)
    ensures Shr(Shr(a, j), k) == Shr(a, j + k)
  {
    if j > 0 {
      ShrAgain(a / 2, j - 1, k);
    }
  }

  lemma {:induction false} ShrOfShl(x: nat, k: nat)
    ensures Shr(Shl(x, k), k) == x
  {
    if k > 0 {
      ShrOfShl(x, k - 1);
      assert Shl(x, k) / 2 == Shl(x, k - 1);
    }
  }

  lemma {:induction false} ShlIsProduct(x: nat, k: nat)
    ensures Shl(x, k) == Shl(1, k) * x
  {
    if k > 0 {
      ShlIsProduct(x, k - 1);
      assert (2 * Shl(1, k - 1)) * x == 2 * (Shl(1, k - 1) * x);
    }
  }

  lemma {:induction false} LowOfSmall(a: nat, k: nat)
    requires a < Shl(1, k)
    ensures Low(a, k) == a
  {
    if k > 0 {
      LowOfSmall(a / 2, k - 1);
    }
  }

  lemma {:induction false} LowBound(a: nat, k: nat)
    ensures Low(a, k) < Shl(1, k)
  {
    if k > 0 {
      LowBound(a / 2, k - 1);
    }
  }

  lemma {:induction false} ShrOfOr(a: nat, b: nat, k: nat)
    ensures Shr(Or(a, b), k) == Or(Shr(a, k), Shr(b, k))
  {
    if k > 0 {
      ShrOfOr(a / 2, b / 2, k - 1);
      if a == 0 && b == 0 {
        ZeroShift(k);
      }
    }
  }

  lemma BitOfOr(a: nat, b: nat, k: nat)
    ensures Bit(Or(a, b), k) <==> Bit(a, k) || Bit(b, k)
  {
    ShrOfOr(a, b, k);
    OrIsOdd(Shr(a, k), Shr(b, k));
  }

  lemma OrIsOdd(a: nat, b: nat)
    ensures Or(a, b) % 2 == 1 <==> a % 2 == 1 || b % 2 == 1
  {
  }

  // ---------- Words built from flags ----------

  /** The word whose lowest bits are `flags`, bit 0 first, with `high` above them. */
  function Stack(flags: seq<bool>, high: nat): nat {
    if flags == [] then high else 2 * Stack(flags[1..], high) + Flag(flags[0])
  }

  lemma {:induction false} StackBits(flags: seq<bool>, high: nat)
    ensures forall k :: 0 <= k < |flags| ==> Bit(Stack(flags, high), k) == flags[k]
    ensures Shr(Stack(flags, high), |flags|) == high
  {
    if flags != [] {
      StackBits(flags[1..], high);
      assert Stack(flags, high) / 2 == Stack(flags[1..], high);
      forall k | 0 <= k < |flags| ensures Bit(Stack(flags, high), k) == flags[k] {
        if k > 0 {
          assert flags[k] == flags[1..][k - 1];
        }
      }
    }
  }

  /** Or-ing the next flag in, while everything from its position up is still clear. */
  lemma {:induction false} OrNextFlag(flags: seq<bool>, f: bool, x: nat, m: nat)
    requires m > 0
    ensures Or(Stack(flags, Shl(x, m)), Shl(Flag(f), |flags|)) == Stack(flags + [f], Shl(x, m - 1))
  {
    var a, b := Stack(flags, Shl(x, m)), Shl(Flag(f), |flags|);
    if flags == [] {
      assert [f][1..] == [];
      assert a == 2 * Shl(x, m - 1);
      ZeroOperand(Shl(x, m - 1));
      if f {
        assert (2 * Shl(x, m - 1)) / 2 == Shl(x, m - 1);
      } else {
        ZeroOperand(a);
      }
    } else {
      OrNextFlag(flags[1..], f, x, m);
      assert (flags + [f])[1..] == flags[1..] + [f];
      if a == 0 && b == 0 {
        assert Or(a / 2, b / 2) == 0;
      }
    }
  }

  /** Or-ing a value above the flags. */
  lemma {:induction false} OrAboveFlags(flags: seq<bool>, x: nat, v: nat, width: nat)
    requires Low(x, width) == 0 && Shr(v, width) == 0
    ensures Or(Stack(flags, x), Shl(v, |flags|)) == Stack(flags, x + v)
  {
    var a, b := Stack(flags, x), Shl(v, |flags|);
    if flags == [] {
      OrBelow(x, v, width);
    } else {
      OrAboveFlags(flags[1..], x, v, width);
      if a == 0 && b == 0 {
        assert Or(a / 2, b / 2) == 0;
      }
    }
  }

  /** A word is the stack of its lowest bits and the rest. */
  lemma {:induction false} StackOfBits(w: nat, flags: seq<bool>)
    requires forall k :: 0 <= k < |flags| ==> flags[k] == Bit(w, k)
    ensures w == Stack(flags, Shr(w, |flags|))
  {
    if flags != [] {
      forall k | 0 <= k < |flags| - 1 ensures flags[1..][k] == Bit(w / 2, k) {
        assert Bit(w, k + 1) == Bit(w / 2, k);
      }
      StackOfBits(w / 2, flags[1..]);
      assert flags[0] == Bit(w, 0);
    }
  }

  lemma {:induction false} StackBound(flags: seq<bool>, high: nat)
    ensures Stack(flags, high) + 1 <= Shl(high + 1, |flags|)
  {
    if flags != [] {
      StackBound(flags[1..], high);
    }
  }
}
