/** The printers of libc/stdio.cpp against strtoll of libc/stdlib.cpp. */
module PrintParse {
  import opened Arithmetic
  import opened Digits
  import opened Wrappers
  import Stdio
  import opened Stdlib

  // ---------- Printed text as strtoll sees it ----------

  lemma DigitCharFacts(d: nat, uppercase: bool, base: nat)
    requires d < base <= 16 && base > 1
    ensures var c := Stdio.DigitChar(d, uppercase);
            && DigitOf(c) == d && Accepts(c, base) && !IsSpace(c) && c != '-' && c != '+'
  {
  }

  lemma DigitsOfText(ds: seq<nat>, uppercase: bool)
    requires forall j :: 0 <= j < |ds| ==> ds[j] < 16
    ensures DigitsOf(Stdio.Text(ds, uppercase)) == ds
  {
    forall j | 0 <= j < |ds| ensures DigitsOf(Stdio.Text(ds, uppercase))[j] == ds[j] {
      DigitCharFacts(ds[j], uppercase, 16);
    }
  }

  lemma {:induction false} ScanAll(s: string, i: nat, base: int)
    requires i <= |s| && forall k :: i <= k < |s| ==> Accepts(s[k], base)
    ensures ScanEnd(s, i, base) == |s|
    decreases |s| - i
  {
    if i < |s| {
      ScanAll(s, i + 1, base);
    }
  }

  /** A nonempty text of digits is read to its terminator. */
  lemma ParseOfDigits(ds: seq<nat>, base: printBase, uppercase: bool, wantEnd: bool)
    requires ds != [] && forall j :: 0 <= j < |ds| ==> ds[j] < base
    ensures Parse(Stdio.Text(ds, uppercase), base, wantEnd) == Parsed(WrappedValue(ds, base), |ds|)
  {
    var s := Stdio.Text(ds, uppercase);
    forall k | 0 <= k < |s| ensures Accepts(s[k], base) {
      DigitCharFacts(ds[k], uppercase, base);
    }
    DigitCharFacts(ds[0], uppercase, base);
    ScanAll(s, 0, base);
    DigitsOfText(ds, uppercase);
    assert s[0..|s|] == s;
  }

  lemma MinusPrefix(s: string, base: nat)
    requires s != "" && s[0] == '-' && base != 0
    ensures PrefixOf(s, base) == Prefix(true, base, 1)
  {
  }

  lemma ParseOfNegative(ds: seq<nat>, base: printBase, wantEnd: bool)
    requires ds != [] && forall j :: 0 <= j < |ds| ==> ds[j] < base
    ensures Parse("-" + Stdio.Text(ds, false), base, wantEnd) == Parsed(-WrappedValue(ds, base), |ds| + 1)
  {
    var t := Stdio.Text(ds, false);
    var s := "-" + t;
    forall k | 1 <= k < |s| ensures Accepts(s[k], base) {
      DigitCharFacts(ds[k - 1], false, base);
      assert s[k] == t[k - 1];
    }
    MinusPrefix(s, base);
    ScanAll(s, 1, base);
    DigitsOfText(ds, false);
    assert s[1..|s|] == t;
  }

  // ---------- How many products wrap ----------

  lemma {:induction false} ValueBound(ds: seq<nat>, base: printBase)
    requires forall j :: 0 <= j < |ds| ==> ds[j] < base
    ensures Value(ds, base) < Power(base, |ds|)
  {
    if ds != [] {
      ValueBound(ds[..|ds| - 1], base);
    }
  }

  /** The number of digits whose products all fit an int. */
  function SafeDigits(base: printBase): nat {
    if base == 10 then 9 else 7
  }

  lemma SmallProduct(d: nat, k: nat, base: printBase)
    requires d < base && k < SafeDigits(base)
    ensures d * Power(base, k) < 0x8000_0000
  {
    if base == 10 {
      PowersOfTen(k);
      NextMultiple(d, Power(10, k), 1_0000_0001);
    } else {
      PowersOfSixteen(k);
      NextMultiple(d, Power(16, k), 0x100_0001);
    }
  }

  lemma {:induction false} FewDigitsFit(ds: seq<nat>, base: printBase)
    requires |ds| <= SafeDigits(base) && forall j :: 0 <= j < |ds| ==> ds[j] < base
    ensures ProductsFit(ds, base)
  {
    if ds != [] {
      SmallProduct(ds[0], |ds| - 1, base);
      FewDigitsFit(ds[1..], base);
    }
  }

  /** Only the first digit of a full-length number can wrap, and then by 2^32 once. */
  lemma FullLengthValue(ds: seq<nat>, base: printBase)
    requires |ds| <= SafeDigits(base) + 1 && forall j :: 0 <= j < |ds| ==> ds[j] < base
    requires Value(ds, base) < U32
    ensures var limit := if base == 10 then 30_0000_0000 else 0x8000_0000;
            WrappedValue(ds, base) == if Value(ds, base) < limit then Value(ds, base) else Value(ds, base) - U32
  {
    if |ds| <= SafeDigits(base) {
      FewDigitsFit(ds, base);
      WrappedValueExact(ds, base);
      ValueBound(ds, base);
      ShortIsBelowLimit(|ds|, base);
    } else {
      FewDigitsFit(ds[1..], base);
      WrappedValueExact(ds[1..], base);
      ValueFromFront(ds, base);
      ValueBound(ds[1..], base);
      TermIs(ds[0], |ds| - 1, base);
      LeadingDigit(ds[0], Value(ds[1..], base), base);
    }
  }

  lemma LeadingDigit(d: nat, rest: nat, base: printBase)
    requires d < base && rest < Power(base, SafeDigits(base))
    requires d * Power(base, SafeDigits(base)) + rest < U32
    ensures var limit := if base == 10 then 30_0000_0000 else 0x8000_0000;
            var v := d * Power(base, SafeDigits(base)) + rest;
            Wrap32(d * Power(base, SafeDigits(base))) + rest == if v < limit then v else v - U32
  {
    if base == 10 {
      PowersOfTen(9);
      LeadingDecimal(d, rest);
    } else {
      PowersOfSixteen(7);
      LeadingHex(d, rest);
    }
  }

  lemma LeadingDecimal(d: nat, rest: nat)
    requires rest < 10_0000_0000 && d * 10_0000_0000 + rest < U32
    ensures var v := d * 10_0000_0000 + rest;
            Wrap32(d * 10_0000_0000) + rest == if v < 30_0000_0000 then v else v - U32
  {
  }

  lemma LeadingHex(d: nat, rest: nat)
    requires rest < 0x1000_0000 && d * 0x1000_0000 + rest < U32
    ensures var v := d * 0x1000_0000 + rest;
            Wrap32(d * 0x1000_0000) + rest == if v < 0x8000_0000 then v else v - U32
  {
  }

  lemma ShortIsBelowLimit(n: nat, base: printBase)
    requires n <= SafeDigits(base)
    ensures Power(base, n) <= if base == 10 then 30_0000_0000 else 0x8000_0000
  {
    if base == 10 {
      PowersOfTen(n);
    } else {
      PowersOfSixteen(n);
    }
  }

  // ---------- Round trips ----------

  lemma PowersCoverU32()
    ensures U32 <= Power(10, Stdio.DECIMAL_DIGITS) && U32 == Power(16, Stdio.HEX_DIGITS)
  {
    PowersOfTen(9);
    PowersOfSixteen(7);
    assert Power(10, 10) == Times(Power(10, 9), 10);
    assert Power(16, 8) == Times(Power(16, 7), 16);
  }

  /** A number printed and read in the same base: the parser reaches the terminator, and the value is
    the number as long as the leading digit's product fits an int, that is below 3 * 10^9 in decimal
    and below 2^31 in hexadecimal; beyond that it is off by 2^32. */
  lemma UnsignedRoundTrip(v: u32, base: printBase, padding: nat, uppercase: bool, wantEnd: bool)
    requires padding > 0 || v > 0
    ensures var n := if base == 10 then Stdio.DECIMAL_DIGITS else Stdio.HEX_DIGITS;
            var limit := if base == 10 then 30_0000_0000 else 0x8000_0000;
            var printed := Stdio.Printed(v, base, n, padding);
            && (forall j :: 0 <= j < |printed| ==> printed[j] < 16)
            && |printed| == Max(NumDigits(v, base), Min(n, padding))
            && Parse(Stdio.Text(printed, uppercase), base, wantEnd)
               == Parsed(if v < limit then v else v - U32, |printed|)
  {
    var n := if base == 10 then Stdio.DECIMAL_DIGITS else Stdio.HEX_DIGITS;
    var printed := Stdio.Printed(v, base, n, padding);
    PowersCoverU32();
    Stdio.PrintedFaithful(v, base, n, padding);
    assert |printed| > 0;
    FullLengthValue(printed, base);
    ParseOfDigits(printed, base, uppercase, wantEnd);
  }

  lemma NegativeRoundTrip(m: u32, padding: nat, wantEnd: bool)
    requires 0 < m <= 0x8000_0000
    ensures var printed := Stdio.Printed(m, 10, Stdio.DECIMAL_DIGITS, padding);
            && (forall j :: 0 <= j < |printed| ==> printed[j] < 16)
            && Parse("-" + Stdio.Text(printed, false), 10, wantEnd) == Parsed(-(m as int), |printed| + 1)
  {
    var printed := Stdio.Printed(m, 10, Stdio.DECIMAL_DIGITS, padding);
    PowersCoverU32();
    Stdio.PrintedFaithful(m, 10, Stdio.DECIMAL_DIGITS, padding);
    assert |printed| > 0;
    FullLengthValue(printed, 10);
    ParseOfNegative(printed, 10, wantEnd);
  }

  /** Every int comes back from to_string_signed through strtoll in base 10. */
  lemma SignedRoundTrip(v: Stdio.i32, padding: nat, wantEnd: bool)
    requires padding > 0 || v != 0
    ensures Parse(Stdio.SignedText(v, padding), 10, wantEnd) == Parsed(v, |Stdio.SignedText(v, padding)|)
  {
    if v < 0 {
      NegativeRoundTrip(Stdio.Magnitude(v), padding, wantEnd);
    } else {
      UnsignedRoundTrip(v, 10, padding, false, wantEnd);
    }
  }

  /** In base 10 the letters a to k are taken for digits: "7a" is eighty, and all of it is read. */
  lemma LettersReadAsDecimal()
    ensures Parse("7a", 10, true) == Parsed(80, 2)
  {
    var s := "7a";
    assert ScanEnd(s, 2, 10) == 2;
    assert ScanEnd(s, 1, 10) == 2;
    assert ScanEnd(s, 0, 10) == 2;
    assert DigitsOf(s[0..2]) == [7, 10];
    assert Power(10, 0) == 1 && Power(10, 1) == 10;
    assert [7, 10][1..] == [10] && [10][1..] == [];
    assert WrappedValue([10], 10) == 10;
  }
}
