/** strtoll of libc/stdlib.cpp against section 7.22.1.4 of ISO C11, in every base the standard has. */
module StrtollStandard {
  import opened Digits
  import opened Wrappers
  import opened Stdlib

  // ---------- The standard ----------

  const LLONG_MAX := 0x7FFF_FFFF_FFFF_FFFF

  /** isspace in the "C" locale, section 7.4.1.10. */
  predicate IsStandardSpace(c: char) {
    c == ' ' || '\t' <= c <= '\r'
  }

  /** A letter or digit of value below the base. */
  predicate IsDigitOf(c: char, base: int) {
    IsAlnum(c) && DigitOf(c) < base
  }

  function StandardBlanks(s: string, i: nat := 0): (j: nat)
    requires i <= |s|
    ensures i <= j <= |s|
    ensures forall k :: i <= k < j ==> IsStandardSpace(s[k])
    ensures j < |s| ==> !IsStandardSpace(s[j])
    decreases |s| - i
  {
    if i < |s| && IsStandardSpace(s[i]) then StandardBlanks(s, i + 1) else i
  }

  /** A minus sign behind the blanks. */
  predicate Negative(s: string) {
    CharAt(s, StandardBlanks(s)) == '-'
  }

  /** The index behind blanks and sign. */
  function StandardStart(s: string): (j: nat)
    ensures j <= |s|
  {
    var i := StandardBlanks(s);
    if i < |s| && IsSign(s[i]) then i + 1 else i
  }

  /** 0x or 0X in front of hexadecimal digits. */
  predicate HasHexPrefix(s: string, j: nat) {
    && j + 2 < |s|
    && s[j] == '0' && (s[j + 1] == 'x' || s[j + 1] == 'X') && IsDigitOf(s[j + 2], 16)
  }

  /** Base 0 takes what an integer constant can be: hexadecimal with the prefix, octal with a leading zero,
    decimal otherwise. */
  function StandardBase(s: string, base: nat): (b: nat)
    ensures base > 1 || base == 0 ==> b > 1
  {
    var j := StandardStart(s);
    if base != 0 then base else if HasHexPrefix(s, j) then 16 else if CharAt(s, j) == '0' then 8 else 10
  }

  function DigitsEnd(s: string, i: nat, base: int): (j: nat)
    requires i <= |s|
    ensures i <= j <= |s|
    ensures forall k :: i <= k < j ==> IsDigitOf(s[k], base)
    ensures j < |s| ==> !IsDigitOf(s[j], base)
    decreases |s| - i
  {
    if i < |s| && IsDigitOf(s[i], base) then DigitsEnd(s, i + 1, base) else i
  }

  /** There is a subject sequence. */
  predicate Converts(s: string, base: nat) {
    IsDigitOf(CharAt(s, StandardStart(s)), StandardBase(s, base))
  }

  function DigitsStart(s: string, base: nat): (j: nat)
    ensures j <= |s|
  {
    var j := StandardStart(s);
    if StandardBase(s, base) == 16 && HasHexPrefix(s, j) then j + 2 else j
  }

  /** Where *endptr has to point. */
  function StandardEnd(s: string, base: nat): (j: nat)
    ensures j <= |s|
    ensures Converts(s, base) ==> DigitsStart(s, base) <= j
  {
    if Converts(s, base) then DigitsEnd(s, DigitsStart(s, base), StandardBase(s, base)) else 0
  }

  function StandardDigits(s: string, base: nat): seq<nat>
    requires Converts(s, base)
  {
    DigitsOf(s[DigitsStart(s, base)..StandardEnd(s, base)])
  }

  /** A value that is no long long becomes the nearest one. */
  function Clamped(x: int): int {
    Max(-LLONG_MAX - 1, Min(LLONG_MAX, x))
  }

  function Signed(negative: bool, x: int): int {
    if negative then -x else x
  }

  function StandardValue(s: string, base: nat): int {
    if Converts(s, base) then Clamped(Signed(Negative(s), Value(StandardDigits(s, base), StandardBase(s, base)))) else 0
  }

  // ---------- When the code meets it ----------

  /** The scan goes too far exactly on the digit equal to the base and on letters up to ten past it. */
  lemma AcceptsVersusStandard(c: char, base: int)
    requires base == 0 || 2 <= base < 36
    ensures IsDigitOf(c, base) ==> Accepts(c, base)
    ensures Accepts(c, base) && !IsDigitOf(c, base) <==>
            (IsDigit(c) && DigitOf(c) == base) || (IsAlpha(c) && base <= DigitOf(c) <= base + 10)
  {
  }

  /** The code takes its digits for hexadecimal ones behind a prefix, but they are octal. */
  predicate OctalReadAsHex(s: string, base: nat) {
    base == 0 && |s| - StandardStart(s) > 2 && !HasHexPrefix(s, StandardStart(s))
  }

  /** When the code finds the end. Without a subject sequence: nothing at the head of the string that the code
    takes for a blank, a sign or a digit. With one: no newline among the blanks, and
    - in bases 2 to 35 no hexadecimal prefix, and behind the digits nothing that the scan wrongly goes over;
    - in base 0 a leading zero, and likewise nothing behind the digits, of which there are more than two if
      there are more than two characters. */
  predicate FindsEnd(s: string, base: nat) {
    var start, e := StandardStart(s), StandardEnd(s, base);
    if !Converts(s, base) then base == 36 || NothingFirst(s, base)
    else
      && base != 36 && '\n' !in s[..StandardBlanks(s)]
      && if base != 0 then !(base == 16 && HasHexPrefix(s, start)) && !Accepts(CharAt(s, e), base)
         else if |s| - start > 2 then s[start] == '0' && e > start + 2 && !Accepts(CharAt(s, e), 16)
         else CharAt(s, start) == '0' && !Accepts(CharAt(s, e), 8)
  }

  /** When it then finds the value: all products fit, or, where octal digits are read as hexadecimal ones, all
    digits but the last are zeros. */
  predicate FindsValue(s: string, base: nat) {
    Converts(s, base) ==>
      var ds := StandardDigits(s, base);
      if OctalReadAsHex(s, base) then AllZeros(ds[..|ds| - 1]) else ProductsFit(ds, StandardBase(s, base))
  }

  predicate AllZeros(ds: seq<nat>) {
    forall k :: 0 <= k < |ds| ==> ds[k] == 0
  }

  // ---------- Values ----------

  /** The sum of the products of fewer than 2^32 digits is a long long that clamping does not reach. */
  lemma {:induction false} WrappedValueBound(ds: seq<nat>, base: nat)
    ensures -0x8000_0000 * |ds| <= WrappedValue(ds, base) <= 0x7FFF_FFFF * |ds|
  {
    if ds != [] {
      WrappedValueBound(ds[1..], base);
    }
  }

  lemma ClampedMatches(negative: bool, w: int, v: nat)
    requires -LLONG_MAX - 1 < w < LLONG_MAX
    ensures Signed(negative, w) == Clamped(Signed(negative, v)) <==> w == v
  {
  }

  lemma SumMatchesIff(negative: bool, ds: seq<nat>, base: nat)
    requires |ds| < U32
    ensures Signed(negative, WrappedValue(ds, base)) == Clamped(Signed(negative, Value(ds, base)))
            <==> ProductsFit(ds, base)
  {
    WrappedValueBound(ds, base);
    ClampedMatches(negative, WrappedValue(ds, base), Value(ds, base));
    WrappedValueExact(ds, base);
  }

  // ---------- Octal digits read as hexadecimal ones ----------

  predicate Octal(ds: seq<nat>) {
    forall k :: 0 <= k < |ds| ==> ds[k] < 8
  }

  lemma {:induction false} HighPowerWraps(k: nat)
    requires k >= 8
    ensures Power(16, k) % U32 == 0
  {
    if k == 8 {
      PowersOfSixteen(7);
    } else {
      HighPowerWraps(k - 1);
    }
  }

  lemma WrapOfMultiple(x: nat)
    requires x % U32 == 0
    ensures Wrap32(x) == 0
  {
  }

  lemma HighTermIsZero(d: nat, k: nat)
    requires k >= 8
    ensures Term(d, k, 16) == 0
  {
    HighPowerWraps(k);
    WrapOfMultiple(Power(16, k));
  }

  lemma {:induction false} OctalProductsFit(ds: seq<nat>)
    requires |ds| <= 8 && Octal(ds)
    ensures ProductsFit(ds, 16)
  {
    if ds != [] {
      var k := |ds| - 1;
      PowersOfSixteen(k);
      assert ds[0] * Power(16, k) <= 7 * 0x1000_0000;
      OctalProductsFit(ds[1..]);
    }
  }

  function LastEight(ds: seq<nat>): seq<nat> {
    ds[Max(0, |ds| - 8)..]
  }

  /** Only the last eight digits count. */
  lemma {:induction false} OctalSum(ds: seq<nat>)
    requires Octal(ds)
    ensures WrappedValue(ds, 16) == Value(LastEight(ds), 16)
  {
    if |ds| <= 8 {
      OctalProductsFit(ds);
      WrappedValueExact(ds, 16);
      assert LastEight(ds) == ds;
    } else {
      HighTermIsZero(ds[0], |ds| - 1);
      OctalSum(ds[1..]);
      assert LastEight(ds[1..]) == LastEight(ds);
    }
  }

  lemma {:induction false} ZeroValue(ds: seq<nat>, base: nat)
    requires base > 0
    ensures Value(ds, base) == 0 <==> AllZeros(ds)
  {
    if ds != [] {
      var n := |ds| - 1;
      ZeroValue(ds[..n], base);
      TimesIsProduct(Value(ds[..n], base), base);
      assert ds == ds[..n] + [ds[n]];
    }
  }

  /** A number of octal digits is no even multiple of what some of its last digits denote in base 16, unless it
    is zero. */
  lemma {:induction false} EvenMultipleIsZero(ds: seq<nat>, m: nat, half: nat)
    requires Octal(ds) && m <= |ds| && (m == |ds| ==> m == 0)
    requires Value(ds, 8) == 2 * half * Value(ds[|ds| - m..], 16)
    ensures AllZeros(ds)
    decreases m
  {
    if m == 0 {
      ZeroValue(ds, 8);
    } else {
      var n := |ds| - 1;
      var front, tail := ds[..n], ds[|ds| - m..];
      assert tail[..m - 1] == front[n - (m - 1)..];
      var x, y := Value(front, 8), Value(front[n - (m - 1)..], 16);
      LastIsZero(x, 2 * half * y, ds[n], half, y);
      EvenMultipleIsZero(front, m - 1, 2 * half);
    }
  }

  lemma LastIsZero(x: nat, z: nat, l: nat, half: nat, y: nat)
    requires l < 8 && z == 2 * half * y && 8 * x + l == 2 * half * (16 * y + l)
    ensures l == 0 && x == 2 * z && x == 2 * (2 * half) * y
  {
    assert 2 * half * (16 * y + l) == 16 * z + 2 * half * l;
    assert 8 * (x - 2 * z) == 2 * (half * l) - l;
    if l == 1 || l == 2 || l == 3 || l == 4 || l == 5 || l == 6 || l == 7 {
      assert false;
    }
  }

  lemma SplitLast(ds: seq<nat>, base: nat)
    requires ds != [] && base > 0
    ensures Value(ds, base) == base * Value(ds[..|ds| - 1], base) + ds[|ds| - 1]
  {
    TimesIsProduct(Value(ds[..|ds| - 1], base), base);
  }

  /** Two numbers with the last digit `l`, one in base 8 and one in base 16. */
  lemma FrontsMatch(front: seq<nat>, m: nat, v: nat, w: nat, l: nat)
    requires Octal(front) && m <= |front| && (m == |front| ==> m == 0)
    requires v == 8 * Value(front, 8) + l && w == 16 * Value(front[|front| - m..], 16) + l
    ensures v == w <==> AllZeros(front)
  {
    if v == w {
      EvenMultipleIsZero(front, m, 1);
    }
    if AllZeros(front) {
      ZeroValue(front, 8);
      ZeroValue(front[|front| - m..], 16);
    }
  }

  lemma LastEightOfRest(ds: seq<nat>, front: seq<nat>, t: seq<nat>)
    requires |ds| >= 2 && front == ds[..|ds| - 1] && t == LastEight(ds[1..])
    ensures 0 < |t| <= |front| && t[|t| - 1] == ds[|ds| - 1]
    ensures t[..|t| - 1] == front[|front| - (|t| - 1)..]
  {
  }

  /** Read as hexadecimal, octal digits give their value exactly when all but the last are zeros. */
  lemma OctalAsHexIff(ds: seq<nat>)
    requires |ds| >= 2 && Octal(ds)
    ensures WrappedValue(ds[1..], 16) == Value(ds, 8) <==> AllZeros(ds[..|ds| - 1])
  {
    var front, t := ds[..|ds| - 1], LastEight(ds[1..]);
    OctalSum(ds[1..]);
    LastEightOfRest(ds, front, t);
    SplitLast(ds, 8);
    SplitLast(t, 16);
    FrontsMatch(front, |t| - 1, Value(ds, 8), Value(t, 16), ds[|ds| - 1]);
  }

  // ---------- The code and the standard side by side ----------

  lemma {:induction false} SkipsToNewline(s: string, i: nat)
    requires i <= |s|
    ensures SkipSpaces(s, i) <= StandardBlanks(s, i)
    ensures '\n' !in s[i..StandardBlanks(s, i)] <==> SkipSpaces(s, i) == StandardBlanks(s, i)
    ensures SkipSpaces(s, i) < StandardBlanks(s, i) ==> s[SkipSpaces(s, i)] == '\n'
    decreases |s| - i
  {
    var j := StandardBlanks(s, i);
    if i < |s| && IsStandardSpace(s[i]) {
      SkipsToNewline(s, i + 1);
      assert s[i..j] == [s[i]] + s[i + 1..j];
    } else {
      assert s[i..j] == [];
    }
  }

  lemma {:induction false} ScansOver(s: string, i: nat, j: nat, base: int)
    requires i <= j <= |s| && forall k :: i <= k < j ==> Accepts(s[k], base)
    ensures ScanEnd(s, i, base) == ScanEnd(s, j, base)
    decreases j - i
  {
    if i < j {
      ScansOver(s, i + 1, j, base);
    }
  }

  /** The scan stops at the first character that it does not take. */
  lemma ScansTo(s: string, i: nat, j: nat, base: int)
    requires i <= j <= |s| && forall k :: i <= k < j ==> Accepts(s[k], base)
    ensures ScanEnd(s, i, base) >= j
    ensures ScanEnd(s, i, base) == j <==> !Accepts(CharAt(s, j), base)
  {
    ScansOver(s, i, j, base);
  }

  lemma EndBehindStart(s: string, base: nat)
    requires Converts(s, base)
    ensures StandardEnd(s, base) > StandardStart(s)
  {
  }

  /** Both parts of the comparison. */
  predicate Compared(s: string, base: nat, r: ParseResult) {
    && (r.Parsed? && r.end == StandardEnd(s, base) <==> FindsEnd(s, base))
    && (r == Parsed(StandardValue(s, base), StandardEnd(s, base)) <==> FindsEnd(s, base) && FindsValue(s, base))
  }

  predicate Bases(base: nat) {
    base == 0 || 2 <= base < 36
  }

  lemma NewlineCase(s: string, base: nat)
    requires Bases(base) && SkipSpaces(s, 0) < StandardBlanks(s)
    ensures Compared(s, base, Parse(s, base, true))
  {
    SkipsToNewline(s, 0);
    var k := SkipSpaces(s, 0);
    assert s[0..StandardBlanks(s)] == s[..StandardBlanks(s)];
    assert PrefixOf(s, base) == Prefix(false, base, k) && !Takes(s, base);
    ComesBackIff(s, base, true);
    if k > 0 {
      SkippedAreSpaces(s, 0, 0);
    }
    if Converts(s, base) {
      EndBehindStart(s, base);
    }
  }

  lemma NothingCase(s: string, base: nat)
    requires Bases(base) && SkipSpaces(s, 0) == StandardBlanks(s)
    requires !Accepts(CharAt(s, StandardStart(s)), base)
    ensures Compared(s, base, Parse(s, base, true))
  {
    var start := StandardStart(s);
    assert PrefixOf(s, base) == Prefix(Negative(s), base, start);
    ComesBackIff(s, base, true);
    if start < |s| && base != 0 {
      AcceptsVersusStandard(s[start], base);
    }
    if Converts(s, base) {
      EndBehindStart(s, base);
    }
  }

  lemma DigitsAccepted(s: string, i: nat, j: nat, base: int)
    requires 2 <= base < 36 && i <= j <= |s| && forall k :: i <= k < j ==> IsDigitOf(s[k], base)
    ensures forall k :: i <= k < j ==> Accepts(s[k], base)
  {
  }

  /** The code starts at the digits of the subject sequence, in their base. */
  lemma RightDigits(s: string, base: nat)
    requires |s| < U32 && Bases(base) && Converts(s, base)
    requires PrefixOf(s, base) == Prefix(Negative(s), StandardBase(s, base), DigitsStart(s, base))
    ensures var r, e, b := Parse(s, base, true), StandardEnd(s, base), StandardBase(s, base);
            && r.Parsed? && (r.end == e <==> !Accepts(CharAt(s, e), b))
            && (r == Parsed(StandardValue(s, base), e)
                <==> !Accepts(CharAt(s, e), b) && ProductsFit(StandardDigits(s, base), b))
  {
    var i, e, b := DigitsStart(s, base), StandardEnd(s, base), StandardBase(s, base);
    DigitsAccepted(s, i, e, b);
    ScansTo(s, i, e, b);
    assert e > i;
    SumMatchesIff(Negative(s), StandardDigits(s, base), b);
  }

  lemma HexPrefixCase(s: string, base: nat)
    requires base == 16 && SkipSpaces(s, 0) == StandardBlanks(s) && HasHexPrefix(s, StandardStart(s))
    ensures Compared(s, base, Parse(s, base, true))
  {
    var start := StandardStart(s);
    assert PrefixOf(s, base) == Prefix(Negative(s), 16, start);
    assert Accepts(s[start], 16) && !Accepts(s[start + 1], 16);
    assert ScanEnd(s, start + 1, 16) == start + 1;
    assert DigitsEnd(s, start + 2, 16) > start + 2;
  }

  /** Something is taken for digits; in base 0 that are letters here. */
  lemma SomethingCase(s: string, base: nat)
    requires |s| < U32 && Bases(base) && SkipSpaces(s, 0) == StandardBlanks(s)
    requires Accepts(CharAt(s, StandardStart(s)), base) && (base == 0 ==> CharAt(s, StandardStart(s)) != '0')
    ensures Compared(s, base, Parse(s, base, true))
  {
    SkipsToNewline(s, 0);
    assert s[0..StandardBlanks(s)] == s[..StandardBlanks(s)];
    var start := StandardStart(s);
    assert PrefixOf(s, base) == Prefix(Negative(s), base, start);
    if !Converts(s, base) {
      BeforeStart(s, base);
    } else if base == 16 && HasHexPrefix(s, start) {
      HexPrefixCase(s, base);
    } else {
      RightDigits(s, base);
    }
  }

  /** Base 0: one zero with at most one character behind it, or a hexadecimal prefix. */
  lemma DetectedCase(s: string)
    requires |s| < U32 && SkipSpaces(s, 0) == StandardBlanks(s) && CharAt(s, StandardStart(s)) == '0'
    requires !OctalReadAsHex(s, 0)
    ensures Compared(s, 0, Parse(s, 0, true))
  {
    SkipsToNewline(s, 0);
    assert s[0..StandardBlanks(s)] == s[..StandardBlanks(s)];
    RightDigits(s, 0);
  }

  /** Base 0: any other number with a leading zero is read as hexadecimal, from its third character on. */
  lemma OctalParse(s: string)
    requires SkipSpaces(s, 0) == StandardBlanks(s) && CharAt(s, StandardStart(s)) == '0' && OctalReadAsHex(s, 0)
    ensures var i, r := StandardStart(s) + 2, Parse(s, 0, true);
            var e := ScanEnd(s, i, 16);
            if e == i then !r.Parsed?
            else r == Parsed(Signed(Negative(s), WrappedValue(DigitsOf(s[i..e]), 16)), e)
  {
    assert PrefixOf(s, 0) == Prefix(Negative(s), 16, StandardStart(s) + 2);
    EmptyRangeIff(s, StandardStart(s) + 2);
  }

  lemma OctalShape(s: string)
    requires SkipSpaces(s, 0) == StandardBlanks(s) && CharAt(s, StandardStart(s)) == '0' && OctalReadAsHex(s, 0)
    ensures '\n' !in s[..StandardBlanks(s)]
    ensures Converts(s, 0) && StandardBase(s, 0) == 8 && DigitsStart(s, 0) == StandardStart(s)
    ensures StandardEnd(s, 0) == DigitsEnd(s, StandardStart(s), 8)
  {
    SkipsToNewline(s, 0);
    assert s[0..StandardBlanks(s)] == s[..StandardBlanks(s)];
  }

  /** At most one digit behind the zero: the end found is further on, if there is one. */
  lemma OctalShortCase(s: string)
    requires SkipSpaces(s, 0) == StandardBlanks(s) && CharAt(s, StandardStart(s)) == '0' && OctalReadAsHex(s, 0)
    requires StandardEnd(s, 0) <= StandardStart(s) + 2
    ensures Compared(s, 0, Parse(s, 0, true))
  {
    OctalShape(s);
    OctalParse(s);
  }

  /** More digits: what the conditions and the standard's value are. */
  lemma OctalConditions(s: string, start: nat, e: nat)
    requires SkipSpaces(s, 0) == StandardBlanks(s) && CharAt(s, start) == '0' && OctalReadAsHex(s, 0)
    requires start == StandardStart(s) && e == StandardEnd(s, 0) && e > start + 2
    ensures FindsEnd(s, 0) <==> !Accepts(CharAt(s, e), 16)
    ensures FindsValue(s, 0) <==> AllZeros(DigitsOf(s[start..e])[..e - start - 1])
    ensures StandardValue(s, 0) == Clamped(Signed(Negative(s), Value(DigitsOf(s[start..e]), 8)))
    ensures forall k :: start <= k < e ==> IsDigitOf(s[k], 8)
  {
    OctalShape(s);
  }

  lemma OctalLongCase(s: string, start: nat, e: nat)
    requires |s| < U32
    requires SkipSpaces(s, 0) == StandardBlanks(s) && CharAt(s, start) == '0' && OctalReadAsHex(s, 0)
    requires start == StandardStart(s) && e == StandardEnd(s, 0) && e > start + 2
    ensures Compared(s, 0, Parse(s, 0, true))
  {
    OctalConditions(s, start, e);
    OctalParse(s);
    DigitsAccepted(s, start + 2, e, 16);
    ScansTo(s, start + 2, e, 16);
    OctalMatches(s, start, e, Negative(s));
  }

  lemma OctalMatches(s: string, start: nat, e: nat, negative: bool)
    requires |s| < U32 && start + 2 < e <= |s| && s[start] == '0'
    requires forall k :: start <= k < e ==> IsDigitOf(s[k], 8)
    ensures var ds := DigitsOf(s[start..e]);
            Signed(negative, WrappedValue(DigitsOf(s[start + 2..e]), 16)) == Clamped(Signed(negative, Value(ds, 8)))
            <==> AllZeros(ds[..e - start - 1])
  {
    var ds, rest := DigitsOf(s[start..e]), DigitsOf(s[start + 2..e]);
    assert ds[1..][1..] == rest && ds[0] == 0;
    LeadingZeroAsHexIff(ds);
    WrappedValueBound(rest, 16);
    ClampedMatches(negative, WrappedValue(rest, 16), Value(ds, 8));
  }

  lemma LeadingZeroAsHexIff(ds: seq<nat>)
    requires |ds| >= 3 && Octal(ds) && ds[0] == 0
    ensures WrappedValue(ds[1..][1..], 16) == Value(ds, 8) <==> AllZeros(ds[..|ds| - 1])
  {
    var v := ds[1..];
    OctalAsHexIff(v);
    ValueFromFront(ds, 8);
    assert ds[..|ds| - 1] == [0] + v[..|v| - 1];
  }

  /** For every string and every base the standard has: strtoll comes back with the end that section 7.22.1.4 of
    ISO C11 asks for if and only if the string meets the first condition, and with end and value if and only
    if it meets the second one too. The strings are those of the 32-bit address space. */
  lemma StrtollMeetsStandardIff(s: string, base: nat)
    requires |s| < U32 && (base == 0 || 2 <= base <= 36)
    ensures var r := Parse(s, base, true);
            && (r.Parsed? && r.end == StandardEnd(s, base) <==> FindsEnd(s, base))
            && (r == Parsed(StandardValue(s, base), StandardEnd(s, base))
                <==> FindsEnd(s, base) && FindsValue(s, base))
  {
    var start := StandardStart(s);
    SkipsToNewline(s, 0);
    if base == 36 {
      assert Converts(s, base) ==> StandardEnd(s, base) > start;
    } else if SkipSpaces(s, 0) < StandardBlanks(s) {
      NewlineCase(s, base);
    } else if base == 0 && CharAt(s, start) == '0' {
      if !OctalReadAsHex(s, base) {
        DetectedCase(s);
      } else if StandardEnd(s, base) <= start + 2 {
        OctalShortCase(s);
      } else {
        OctalLongCase(s, start, StandardEnd(s, base));
      }
    } else if Accepts(CharAt(s, start), base) {
      SomethingCase(s, base);
    } else {
      NothingCase(s, base);
    }
  }

  lemma PairIsNotDecimal(s: string)
    ensures PairFirst(s, 0) ==> StandardBase(s, 0) != 10
  {
  }

  /** Base 0 takes no decimal number: the call ends as it does where there is no number at all. */
  lemma DecimalsNotTaken(s: string, wantEnd: bool)
    requires Converts(s, 0) && StandardBase(s, 0) == 10
    ensures Parse(s, 0, wantEnd) ==
            if !NothingFirst(s, 0) then AssertionFailed else if wantEnd then Parsed(0, 0) else OutOfString
  {
    SkipsToNewline(s, 0);
    assert !Takes(s, 0);
    PairIsNotDecimal(s);
    ComesBackIff(s, 0, wantEnd);
  }

  /** Examples in base 0: a decimal number that is not read at all, an octal one read as hexadecimal without its
    first two digits, and a string that makes the code read in front of it. */
  lemma AutodetectionFails()
    ensures Parse("12", 0, true) == Parsed(0, 0)
    ensures Parse("0123", 0, true) == Parsed(0x23, 4)
    ensures Parse("0x!", 0, true) == OutOfString
  {
    var d, o, x := "12", "0123", "0x!";
    assert PrefixOf(d, 0) == Prefix(false, 0, 0) && ScanEnd(d, 0, 0) == 0;
    assert PrefixOf(o, 0) == Prefix(false, 16, 2);
    assert ScanEnd(o, 4, 16) == 4;
    assert ScanEnd(o, 3, 16) == 4;
    assert ScanEnd(o, 2, 16) == 4;
    assert DigitsOf(o[2..4]) == [2, 3];
    assert Power(16, 0) == 1 && Power(16, 1) == 16;
    assert [2, 3][1..] == [3] && [3][1..] == [];
    assert WrappedValue([3], 16) == 3;
    assert PrefixOf(x, 0) == Prefix(false, 16, 2);
    ComesBackIff(x, 0, true);
  }
}
