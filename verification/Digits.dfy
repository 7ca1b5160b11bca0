/** Numbers as digit sequences, most significant digit first. */
module Digits {
  import opened Arithmetic
  import opened Wrappers

  predicate IsDigit(c: char) {
    '0' <= c <= '9'
  }

  /** The two bases the printers use. */
  type printBase = b: nat | b == 10 || b == 16 witness 10

  function Times(x: nat, b: nat): nat {
    if b == 10 then 10 * x else if b == 16 then 16 * x else b * x
  }

  lemma TimesIsProduct(x: nat, b: nat)
    ensures Times(x, b) == b * x
  {
  }

  function Quotient(v: nat, b: printBase): nat {
    if b == 10 then v / 10 else v / 16
  }

  function Remainder(v: nat, b: printBase): (r: nat)
    ensures r < b
    ensures v == Times(Quotient(v, b), b) + r
  {
    if b == 10 then v % 10 else v % 16
  }

  function Power(b: nat, k: nat): nat {
    if k == 0 then 1 else Times(Power(b, k - 1), b)
  }

  /** The number a digit sequence denotes. */
  function Value(ds: seq<nat>, b: nat): nat {
    if ds == [] then 0 else Times(Value(ds[..|ds| - 1], b), b) + ds[|ds| - 1]
  }

  /** The lowest `n` digits of `v`, leading zeros included. */
  function AllDigits(v: nat, b: printBase, n: nat): (ds: seq<nat>)
    ensures |ds| == n
    ensures forall j :: 0 <= j < n ==> ds[j] < b
  {
    if n == 0 then [] else AllDigits(Quotient(v, b), b, n - 1) + [Remainder(v, b)]
  }

  /** The position of the first nonzero digit, or the length. */
  function LeadingZeros(ds: seq<nat>): (z: nat)
    ensures z <= |ds|
    ensures forall j :: 0 <= j < z ==> ds[j] == 0
    ensures z < |ds| ==> ds[z] != 0
  {
    if ds == [] || ds[0] != 0 then 0 else 1 + LeadingZeros(ds[1..])
  }

  lemma {:induction false} PowerPositive(b: printBase, k: nat)
    ensures Power(b, k) > 0
  {
    if k > 0 {
      PowerPositive(b, k - 1);
    }
  }

  lemma PowersOfTen(k: nat)
    requires k <= 9
    ensures Power(10, k) <= 10_0000_0000 && (k <= 8 ==> Power(10, k) <= 1_0000_0000) && Power(10, 9) == 10_0000_0000
  {
    assert Power(10, 0) == 1 && Power(10, 1) == 10 && Power(10, 2) == 100 && Power(10, 3) == 1000
        && Power(10, 4) == 1_0000 && Power(10, 5) == 10_0000 && Power(10, 6) == 100_0000
        && Power(10, 7) == 1000_0000 && Power(10, 8) == 1_0000_0000 && Power(10, 9) == 10_0000_0000;
  }

  lemma PowersOfSixteen(k: nat)
    requires k <= 7
    ensures Power(16, k) <= 0x1000_0000 && (k <= 6 ==> Power(16, k) <= 0x100_0000) && Power(16, 7) == 0x1000_0000
  {
    assert Power(16, 0) == 1 && Power(16, 1) == 0x10 && Power(16, 2) == 0x100 && Power(16, 3) == 0x1000
        && Power(16, 4) == 0x1_0000 && Power(16, 5) == 0x10_0000 && Power(16, 6) == 0x100_0000
        && Power(16, 7) == 0x1000_0000;
  }

  /** Dividing by the base and then by p is dividing by their product. */
  lemma DivideTwice(v: nat, b: printBase, p: nat)
    requires p > 0
    ensures Times(p, b) > 0 && Quotient(v, b) / p == v / Times(p, b)
  {
    var w := Quotient(v, b);
    QuotientOfParts(v, b, p, w / p, w % p);
  }

  lemma QuotientOfParts(v: nat, b: printBase, p: nat, q: nat, r: nat)
    requires r < p && Quotient(v, b) == p * q + r
    ensures Times(p, b) > 0 && v / Times(p, b) == q
  {
    TimesDistributes(p, q, r, b);
    TimesBelow(r, p, Remainder(v, b), b);
    QuotientIs(v, Times(p, b), q, Times(r, b) + Remainder(v, b));
  }

  lemma TimesBelow(r: nat, p: nat, low: nat, b: printBase)
    requires r < p && low < b
    ensures Times(r, b) + low < Times(p, b)
  {
  }

  lemma TimesDistributes(p: nat, q: nat, r: nat, b: printBase)
    ensures Times(p * q + r, b) == Times(p, b) * q + Times(r, b)
  {
    if b == 10 {
      assert 10 * (p * q) == (10 * p) * q;
    } else {
      assert 16 * (p * q) == (16 * p) * q;
    }
  }

  /** Digit `j` is found by one division and one remainder. */
  lemma {:induction false} DigitAt(v: nat, b: printBase, n: nat, j: nat, p: nat)
    requires j < n && p > 0 && p == Power(b, n - 1 - j)
    ensures AllDigits(v, b, n)[j] == Remainder(v / p, b)
  {
    if j < n - 1 {
      var p' := Power(b, n - 2 - j);
      PowerPositive(b, n - 2 - j);
      DigitAt(Quotient(v, b), b, n - 1, j, p');
      DivideTwice(v, b, p');
    }
  }

  /** All digits of a number that fits denote it. */
  lemma {:induction false} ValueOfAllDigits(v: nat, b: printBase, n: nat)
    requires v < Power(b, n)
    ensures Value(AllDigits(v, b, n), b) == v
  {
    if n > 0 {
      ValueOfAllDigits(Quotient(v, b), b, n - 1);
      assert AllDigits(v, b, n)[..n - 1] == AllDigits(Quotient(v, b), b, n - 1);
    }
  }

  /** Leading zeros do not count. */
  lemma {:induction false} ValueDropsZeros(ds: seq<nat>, b: printBase, z: nat)
    requires z <= |ds| && forall j :: 0 <= j < z ==> ds[j] == 0
    ensures Value(ds, b) == Value(ds[z..], b)
    decreases |ds|
  {
    if ds != [] {
      var n := |ds| - 1;
      if z <= n {
        ValueDropsZeros(ds[..n], b, z);
        assert ds[z..][..n - z] == ds[..n][z..];
      } else {
        ValueDropsZeros(ds[..n], b, n);
        assert ds[..n][n..] == [];
      }
    }
  }

  /** The number of digits without leading zeros; none for zero. */
  function NumDigits(v: nat, b: printBase): nat {
    if v == 0 then 0 else 1 + NumDigits(Quotient(v, b), b)
  }

  lemma {:induction false} NumDigitsIsLength(v: nat, b: printBase, n: nat)
    requires v < Power(b, n)
    ensures NumDigits(v, b) == n - LeadingZeros(AllDigits(v, b, n))
  {
    if n > 0 {
      NumDigitsIsLength(Quotient(v, b), b, n - 1);
      LeadingZerosAppend(AllDigits(Quotient(v, b), b, n - 1), Remainder(v, b));
    }
  }

  lemma {:induction false} LeadingZerosAppend(ds: seq<nat>, d: nat)
    ensures LeadingZeros(ds + [d]) ==
            if LeadingZeros(ds) < |ds| then LeadingZeros(ds) else if d != 0 then |ds| else |ds| + 1
  {
    if ds != [] && ds[0] == 0 {
      assert (ds + [d])[1..] == ds[1..] + [d];
      LeadingZerosAppend(ds[1..], d);
    }
  }
}
