/** The number printers of libc/stdio.cpp. Buffers are character arrays; sizes are 32-bit. */
module Stdio {
  import opened Bits
  import opened Digits
  import opened Wrappers

  // ---------- pow ----------

  lemma ModProduct(a: nat, x: nat)
    ensures a % U32 * x % U32 == a * x % U32
  {
    var q, r := a / U32, a % U32;
    assert a * x == U32 * (q * x) + r * x by {
      assert a == U32 * q + r;
      assert (U32 * q) * x == U32 * (q * x);
    }
    ModMultiple(q * x, r * x);
  }

  lemma ModMultiple(k: nat, y: nat)
    ensures (U32 * k + y) % U32 == y % U32
  {
  }

  /** pow on size_t: the power, reduced modulo 2^32. */
  method Pow(x: u32, y: u32) returns (out: u32)
    ensures out == Power(x, y) % U32
  {
    if y == 0 {
      return 1;
    }
    out := x;
    TimesIsProduct(1, x);
    assert Power(x, 1) == Times(Power(x, 0), x);
    for i := 1 to y
      invariant out == Power(x, i) % U32
    {
      ModProduct(Power(x, i), x);
      TimesIsProduct(Power(x, i), x);
      assert Power(x, i) * x == x * Power(x, i);
      out := out * x % U32;
    }
  }

  // ---------- What is printed ----------

  const DECIMAL_DIGITS := 10
  const HEX_DIGITS := 8

  /** How many of the leading zeros of `ds` are left out when at least `padding` digits are wanted. */
  function Skipped(ds: seq<nat>, padding: nat): (z: nat)
    ensures z <= LeadingZeros(ds)
  {
    Min(LeadingZeros(ds), Max(0, |ds| - padding))
  }

  /** The digits printed for `v` in `n` positions. */
  function Printed(v: nat, b: printBase, n: nat, padding: nat): seq<nat> {
    var ds := AllDigits(v, b, n);
    ds[Skipped(ds, padding)..]
  }

  /** The digits printed denote the number, and there are as many as it has, or as the padding asks. */
  lemma PrintedFaithful(v: nat, b: printBase, n: nat, padding: nat)
    requires v < Power(b, n)
    ensures Value(Printed(v, b, n, padding), b) == v
    ensures |Printed(v, b, n, padding)| == Max(NumDigits(v, b), Min(n, padding))
    ensures forall j :: 0 <= j < |Printed(v, b, n, padding)| ==> Printed(v, b, n, padding)[j] < b
  {
    var ds := AllDigits(v, b, n);
    ValueOfAllDigits(v, b, n);
    ValueDropsZeros(ds, b, Skipped(ds, padding));
    NumDigitsIsLength(v, b, n);
  }

  function DigitChar(d: nat, uppercase: bool): char
    requires d < 16
  {
    if d <= 9 then '0' + (d as char) else if uppercase then 'A' + ((d - 10) as char) else 'a' + ((d - 10) as char)
  }

  function Text(ds: seq<nat>, uppercase: bool): string
    requires forall j :: 0 <= j < |ds| ==> ds[j] < 16
  {
    seq(|ds|, j requires 0 <= j < |ds| => DigitChar(ds[j], uppercase))
  }

  const UPPER := "0123456789ABCDEF"
  const LOWER := "0123456789abcdef"

  /** Every digit is written as the character that stands for it, capital letters exactly where they are asked
    for. */
  lemma TextShows(ds: seq<nat>, uppercase: bool)
    requires forall j :: 0 <= j < |ds| ==> ds[j] < 16
    ensures |Text(ds, uppercase)| == |ds|
    ensures forall j :: 0 <= j < |ds| ==> Text(ds, uppercase)[j] == (if uppercase then UPPER else LOWER)[ds[j]]
    ensures forall j :: 0 <= j < |ds| ==>
              var c := Text(ds, uppercase)[j];
              '0' <= c <= '9' || (if uppercase then 'A' <= c <= 'F' else 'a' <= c <= 'f')
  {
    forall d | 0 <= d < 16
      ensures DigitChar(d, true) == UPPER[d] && DigitChar(d, false) == LOWER[d]
    {
      OneDigit(d);
    }
  }

  lemma OneDigit(d: nat)
    requires d < 16
    ensures DigitChar(d, true) == UPPER[d] && DigitChar(d, false) == LOWER[d]
  {
  }

  /** The buffer with `text` written at `at`. */
  ghost predicate WrittenAt(before: seq<char>, after: seq<char>, at: nat, text: string) {
    && |after| == |before| && at + |text| <= |after|
    && (forall j :: 0 <= j < |after| ==> after[j] == if at <= j < at + |text| then text[j - at] else before[j])
  }

  /** The state of a digit loop after `i` of the digits `ds`. */
  ghost predicate DigitsWritten(before: seq<char>, buffer: seq<char>, at: nat, ds: seq<nat>, padding: nat,
                                uppercase: bool, i: nat, index: nat, nonzero: bool)
    requires i <= |ds| && forall j :: 0 <= j < |ds| ==> ds[j] < 16
  {
    var skipped := Skipped(ds, padding);
    && index == Max(0, i - skipped)
    && (nonzero <==> LeadingZeros(ds) < i)
    && WrittenAt(before, buffer, at, Text(ds[Min(i, skipped)..i], uppercase))
  }

  /** A digit is written exactly when it is not a leading zero beyond the padding. */
  lemma WriteDecision(ds: seq<nat>, padding: nat, i: nat)
    requires i < |ds|
    ensures (ds[i] != 0 || LeadingZeros(ds) < i || padding > |ds| - (i + 1)) <==> i >= Skipped(ds, padding)
  {
  }

  /** One round of a digit loop: leave the buffer alone, or append the digit. */
  lemma DigitRound(before: seq<char>, buffer: seq<char>, at: nat, ds: seq<nat>, padding: nat, uppercase: bool,
                   i: nat, index: nat, nonzero: bool)
    requires i < |ds| && at + |ds| - Skipped(ds, padding) <= |buffer| && forall j :: 0 <= j < |ds| ==> ds[j] < 16
    requires DigitsWritten(before, buffer, at, ds, padding, uppercase, i, index, nonzero)
    ensures if ds[i] != 0 || nonzero || padding > |ds| - (i + 1) then
              && at + index < |buffer|
              && DigitsWritten(before, buffer[at + index := DigitChar(ds[i], uppercase)], at, ds, padding, uppercase,
                               i + 1, index + 1, nonzero || ds[i] != 0)
            else
              DigitsWritten(before, buffer, at, ds, padding, uppercase, i + 1, index, nonzero)
  {
    WriteDecision(ds, padding, i);
    var z := Skipped(ds, padding);
    if i >= z {
      assert ds[z..i + 1] == ds[z..i] + [ds[i]];
    } else {
      assert ds[Min(i + 1, z)..i + 1] == [] == ds[Min(i, z)..i];
    }
  }

  lemma DigitsDone(before: seq<char>, buffer: seq<char>, at: nat, ds: seq<nat>, padding: nat, uppercase: bool,
                   index: nat, nonzero: bool)
    requires forall j :: 0 <= j < |ds| ==> ds[j] < 16
    requires DigitsWritten(before, buffer, at, ds, padding, uppercase, |ds|, index, nonzero)
    ensures var printed := ds[Skipped(ds, padding)..];
            index == |printed| && WrittenAt(before, buffer, at, Text(printed, uppercase))
  {
    assert ds[Skipped(ds, padding)..|ds|] == ds[Skipped(ds, padding)..];
  }

  // ---------- The printers ----------

  /** `ds` are the ten decimal digits of `v` as the loop computes them. */
  ghost predicate DecimalDigitsOf(v: u32, ds: seq<nat>) {
    && |ds| == DECIMAL_DIGITS
    && (forall j :: 0 <= j < |ds| ==> ds[j] < 10)
    && forall left: nat :: left < DECIMAL_DIGITS ==> DigitByDivision(v, ds, left, Power(10, left))
  }

  /** The digit with `left` digits behind it, `p` being 10^left. */
  ghost predicate DigitByDivision(v: u32, ds: seq<nat>, left: nat, p: nat)
    requires |ds| == DECIMAL_DIGITS && left < DECIMAL_DIGITS
  {
    0 < p <= 1_000_000_000 && ds[DECIMAL_DIGITS - 1 - left] == v / p % 10
  }

  lemma DecimalDigitsComputed(v: u32)
    ensures DecimalDigitsOf(v, AllDigits(v, 10, DECIMAL_DIGITS))
  {
    forall left: nat | left < DECIMAL_DIGITS
      ensures DigitByDivision(v, AllDigits(v, 10, DECIMAL_DIGITS), left, Power(10, left))
    {
      PowerPositive(10, left);
      PowersOfTen(left);
      DigitAt(v, 10, DECIMAL_DIGITS, DECIMAL_DIGITS - 1 - left, Power(10, left));
    }
  }

  method ToStringUnsigned(buffer: array<char>, at: nat, v: u32, padding: u32) returns (count: nat)
    requires at + |Printed(v, 10, DECIMAL_DIGITS, padding)| <= buffer.Length
    modifies buffer
    ensures var printed := Printed(v, 10, DECIMAL_DIGITS, padding);
            count == |printed| && WrittenAt(old(buffer[..]), buffer[..], at, Text(printed, false))
  {
    DecimalDigitsComputed(v);
    count := PrintDecimal(buffer, at, v, padding, AllDigits(v, 10, DECIMAL_DIGITS));
  }

  method PrintDecimal(buffer: array<char>, at: nat, v: u32, padding: u32, ghost ds: seq<nat>) returns (count: nat)
    requires DecimalDigitsOf(v, ds) && at + |ds| - Skipped(ds, padding) <= buffer.Length
    modifies buffer
    ensures var printed := ds[Skipped(ds, padding)..];
            count == |printed| && WrittenAt(old(buffer[..]), buffer[..], at, Text(printed, false))
  {
    var bufferIndex := 0;
    var hasWrittenNonzero := false;
    for i := 1 to DECIMAL_DIGITS + 1
      invariant DigitsWritten(old(buffer[..]), buffer[..], at, ds, padding, false,
                              i - 1, bufferIndex, hasWrittenNonzero)
    {
      var thisDigit := DecimalDigit(v, DECIMAL_DIGITS - i, ds);
      bufferIndex, hasWrittenNonzero := PutDecimal(buffer, at, thisDigit, DECIMAL_DIGITS - i, padding, bufferIndex,
                                                   hasWrittenNonzero, old(buffer[..]), ds);
    }
    DigitsDone(old(buffer[..]), buffer[..], at, ds, padding, false, bufferIndex, hasWrittenNonzero);
    count := bufferIndex;
  }

  method DecimalDigit(v: u32, left: nat, ghost ds: seq<nat>) returns (d: nat)
    requires DecimalDigitsOf(v, ds) && left < DECIMAL_DIGITS
    ensures d == ds[DECIMAL_DIGITS - 1 - left]
  {
    var powered := Pow(10, left);
    PoweredDigit(v, left, ds, powered, Power(10, left));
    d := v / powered % 10;
  }

  lemma PoweredDigit(v: u32, left: nat, ds: seq<nat>, powered: nat, p: nat)
    requires |ds| == DECIMAL_DIGITS && left < DECIMAL_DIGITS && DigitByDivision(v, ds, left, p)
    requires powered == p % U32
    ensures powered > 0 && v / powered % 10 == ds[DECIMAL_DIGITS - 1 - left]
  {
  }

  /** The body of the loop for the digit that has `left` digits behind it. */
  method PutDecimal(buffer: array<char>, at: nat, thisDigit: nat, left: nat, padding: u32, index: nat, nonzero: bool,
                    ghost before: seq<char>, ghost ds: seq<nat>) returns (bufferIndex: nat, hasWrittenNonzero: bool)
    requires left < |ds| && at + |ds| - Skipped(ds, padding) <= buffer.Length
    requires (forall j :: 0 <= j < |ds| ==> ds[j] < 10) && thisDigit == ds[|ds| - 1 - left]
    requires DigitsWritten(before, buffer[..], at, ds, padding, false, |ds| - 1 - left, index, nonzero)
    modifies buffer
    ensures DigitsWritten(before, buffer[..], at, ds, padding, false, |ds| - left, bufferIndex, hasWrittenNonzero)
  {
    DigitRound(before, buffer[..], at, ds, padding, false, |ds| - 1 - left, index, nonzero);
    bufferIndex, hasWrittenNonzero := index, nonzero;
    if thisDigit == 0 {
      if hasWrittenNonzero {
        buffer[at + bufferIndex] := '0';
      } else if padding > left {
        buffer[at + bufferIndex] := '0';
      } else {
        return;
      }
    } else {
      buffer[at + bufferIndex] := '0' + (thisDigit as char);
      hasWrittenNonzero := true;
    }
    bufferIndex := bufferIndex + 1;
  }

  /** `(v >> 4k) & 0xF` is a hexadecimal digit. */
  lemma {:induction false} NibbleIsDigit(v: nat, k: nat)
    ensures Power(16, k) > 0 && And(Shr(v, 4 * k), 0xF) == v / Power(16, k) % 16
    decreases k
  {
    PowerPositive(16, k);
    LowNibble(v);
    if k == 0 {
      LowNibble(v);
    } else {
      ShrAgain(v, 4, 4 * k - 4);
      NibbleIsDigit(v / 16, k - 1);
      PowerPositive(16, k - 1);
      DivideTwice(v, 16, Power(16, k - 1));
    }
  }

  lemma LowNibble(v: nat)
    ensures And(v, 0xF) == v % 16 && Shr(v, 4) == v / 16
  {
    assert Ones(4) == 15;
    AndOnes(v, 4);
    assert Shr(v, 4) == Shr(v / 2, 3) == Shr(v / 2 / 2, 2) == Shr(v / 2 / 2 / 2, 1) == Shr(v / 2 / 2 / 2 / 2, 0);
    assert Low(v, 4) == 2 * Low(v / 2, 3) + v % 2;
    assert Low(v / 2, 3) == 2 * Low(v / 2 / 2, 2) + v / 2 % 2;
    assert Low(v / 2 / 2, 2) == 2 * Low(v / 2 / 2 / 2, 1) + v / 2 / 2 % 2;
    assert Low(v / 2 / 2 / 2, 1) == v / 2 / 2 / 2 % 2;
  }

  ghost predicate HexDigitsOf(v: u32, ds: seq<nat>) {
    && |ds| == HEX_DIGITS
    && forall j :: 0 <= j < |ds| ==> ds[j] < 16 && ds[j] == And(Shr(v, 4 * (HEX_DIGITS - 1 - j)), 0xF)
  }

  lemma HexDigitsComputed(v: u32)
    ensures HexDigitsOf(v, AllDigits(v, 16, HEX_DIGITS))
  {
    forall j | 0 <= j < HEX_DIGITS
      ensures AllDigits(v, 16, HEX_DIGITS)[j] == And(Shr(v, 4 * (HEX_DIGITS - 1 - j)), 0xF)
    {
      NibbleIsDigit(v, HEX_DIGITS - 1 - j);
      DigitAt(v, 16, HEX_DIGITS, j, Power(16, HEX_DIGITS - 1 - j));
    }
  }

  method ToStringHex(buffer: array<char>, at: nat, v: u32, padding: u32, uppercase: bool) returns (count: nat)
    requires at + |Printed(v, 16, HEX_DIGITS, padding)| <= buffer.Length
    modifies buffer
    ensures var printed := Printed(v, 16, HEX_DIGITS, padding);
            count == |printed| && WrittenAt(old(buffer[..]), buffer[..], at, Text(printed, uppercase))
  {
    HexDigitsComputed(v);
    count := PrintHex(buffer, at, v, padding, uppercase, AllDigits(v, 16, HEX_DIGITS));
  }

  method PrintHex(buffer: array<char>, at: nat, v: u32, padding: u32, uppercase: bool, ghost ds: seq<nat>)
    returns (count: nat)
    requires HexDigitsOf(v, ds) && at + |ds| - Skipped(ds, padding) <= buffer.Length
    modifies buffer
    ensures var printed := ds[Skipped(ds, padding)..];
            count == |printed| && WrittenAt(old(buffer[..]), buffer[..], at, Text(printed, uppercase))
  {
    var bufferIndex := 0;
    var hasWrittenNonzero := false;
    for i := 1 to HEX_DIGITS + 1
      invariant DigitsWritten(old(buffer[..]), buffer[..], at, ds, padding, uppercase,
                              i - 1, bufferIndex, hasWrittenNonzero)
    {
      var shiftAmount := (HEX_DIGITS - i) * 4;
      var thisNibble := And(Shr(v, shiftAmount), 0xF);
      assert shiftAmount == 4 * (HEX_DIGITS - 1 - (i - 1)) && thisNibble == ds[i - 1];
      bufferIndex, hasWrittenNonzero := PutNibble(buffer, at, thisNibble, HEX_DIGITS - i, padding, uppercase,
                                                  bufferIndex, hasWrittenNonzero, old(buffer[..]), ds);
    }
    DigitsDone(old(buffer[..]), buffer[..], at, ds, padding, uppercase, bufferIndex, hasWrittenNonzero);
    count := bufferIndex;
  }

  method PutNibble(buffer: array<char>, at: nat, thisNibble: nat, left: nat, padding: u32, uppercase: bool, index: nat,
                   nonzero: bool, ghost before: seq<char>, ghost ds: seq<nat>)
    returns (bufferIndex: nat, hasWrittenNonzero: bool)
    requires left < |ds| && at + |ds| - Skipped(ds, padding) <= buffer.Length
    requires (forall j :: 0 <= j < |ds| ==> ds[j] < 16) && thisNibble == ds[|ds| - 1 - left]
    requires DigitsWritten(before, buffer[..], at, ds, padding, uppercase, |ds| - 1 - left, index, nonzero)
    modifies buffer
    ensures DigitsWritten(before, buffer[..], at, ds, padding, uppercase, |ds| - left, bufferIndex, hasWrittenNonzero)
  {
    DigitRound(before, buffer[..], at, ds, padding, uppercase, |ds| - 1 - left, index, nonzero);
    if thisNibble == 0 && !nonzero && padding <= left {
      return index, nonzero;
    }
    ghost var next := buffer[..][at + index := DigitChar(thisNibble, uppercase)];
    WriteNibble(buffer, at + index, thisNibble, uppercase);
    assert buffer[..] == next;
    bufferIndex, hasWrittenNonzero := index + 1, nonzero || thisNibble != 0;
  }

  /** The character of a nibble: upper case first, then lowered. */
  method WriteNibble(buffer: array<char>, place: nat, thisNibble: nat, uppercase: bool)
    requires place < buffer.Length && thisNibble < 16
    modifies buffer
    ensures buffer[..] == old(buffer[..])[place := DigitChar(thisNibble, uppercase)]
  {
    if thisNibble <= 9 {
      buffer[place] := '0' + (thisNibble as char);
    } else {
      buffer[place] := 'A' + ((thisNibble - 0xA) as char);
    }
    if !uppercase && buffer[place] >= 'A' {
      buffer[place] := buffer[place] + (0x20 as char);
    }
  }

  type i32 = x: int | -0x8000_0000 <= x < 0x8000_0000

  /** `-v` as the unsigned parameter receives it; the smallest int negates to itself, which is 2^31. */
  function Magnitude(v: i32): u32 {
    if v < 0 then -(v as int) else v
  }

  /** What to_string_signed prints. */
  function SignedText(v: i32, padding: nat): string {
    var digits := Text(Printed(Magnitude(v), 10, DECIMAL_DIGITS, padding), false);
    if v < 0 then "-" + digits else digits
  }

  method ToStringSigned(buffer: array<char>, at: nat, v: i32, padding: u32) returns (count: nat)
    requires at + |SignedText(v, padding)| <= buffer.Length
    modifies buffer
    ensures count == |SignedText(v, padding)|
    ensures WrittenAt(old(buffer[..]), buffer[..], at, SignedText(v, padding))
  {
    if v < 0 {
      buffer[at] := '-';
      count := ToStringUnsigned(buffer, at + 1, Magnitude(v), padding);
      count := count + 1;
    } else {
      count := ToStringUnsigned(buffer, at, v, padding);
    }
  }

  // ---------- Reading a padding ----------

  function DecimalDigits(s: string): (ds: seq<nat>)
    ensures |ds| == |s|
  {
    seq<nat>(|s|, j requires 0 <= j < |s| => if IsDigit(s[j]) then s[j] as int - '0' as int else 0)
  }

  predicate StartsWithDigits(s: string, digits: nat) {
    digits <= |s| && forall j :: 0 <= j < digits ==> IsDigit(s[j])
  }

  /** string_to_padding: the decimal number in the first `digits` characters, modulo 2^32. None is the
    failed assertion on the first of them that is no digit, the terminator included. */
  method StringToPadding(s: string, digits: u32) returns (out: Option<u32>)
    ensures out == if StartsWithDigits(s, digits) then Some(Value(DecimalDigits(s[..digits]), 10) % U32) else None
  {
    ghost var ds := if digits <= |s| then DecimalDigits(s[..digits]) else [];
    var sum := 0;
    for i := 0 to digits
      invariant i <= |s| && forall j :: 0 <= j < i ==> IsDigit(s[j])
      invariant digits <= |s| ==> sum == Value(ds[..i], 10) * Power(10, digits - i) % U32
    {
      if i == |s| || !IsDigit(s[i]) {
        return None;
      }
      sum := AddPadding(sum, s[i], digits - i - 1, ds, i);
    }
    assert ds[..digits] == ds;
    out := Some(sum);
  }

  /** One round of the loop, for a digit with `left` digits behind it. */
  method AddPadding(sum: nat, c: char, left: u32, ghost ds: seq<nat>, ghost i: nat) returns (out: nat)
    requires IsDigit(c)
    requires i < |ds| ==> && ds[i] == c as int - '0' as int && left == |ds| - i - 1
                          && sum == Value(ds[..i], 10) * Power(10, |ds| - i) % U32
    ensures i < |ds| ==> out == Value(ds[..i + 1], 10) * Power(10, |ds| - i - 1) % U32
  {
    var num := c as int - '0' as int;
    var p := Pow(10, left);
    if i < |ds| {
      PaddingStep(ds, i, num, p);
    }
    out := (sum + num * p % U32) % U32;
  }

  lemma PaddingStep(ds: seq<nat>, i: nat, num: nat, p: nat)
    requires i < |ds| && num == ds[i] && p == Power(10, |ds| - i - 1) % U32
    ensures (Value(ds[..i], 10) * Power(10, |ds| - i) % U32 + num * p % U32) % U32
         == Value(ds[..i + 1], 10) * Power(10, |ds| - i - 1) % U32
  {
    var a, q := Value(ds[..i], 10), Power(10, |ds| - i - 1);
    assert ds[..i + 1][..i] == ds[..i];
    assert Value(ds[..i + 1], 10) == 10 * a + num;
    assert (10 * a + num) * q == a * (10 * q) + num * q;
    ModProduct(q, num);
    assert q % U32 * num == num * p && q * num == num * q;
    ModSum(a * (10 * q), num * q);
  }

  lemma ModSum(x: nat, y: nat)
    ensures (x % U32 + y % U32) % U32 == (x + y) % U32
  {
  }
}
