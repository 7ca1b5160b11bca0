/** strtoll of libc/stdlib.cpp. A C string is its characters up to the terminator. Products of ints wrap
  around as two's complement. */
module Stdlib {
  import opened Digits
  import opened Wrappers

  // ---------- Characters ----------

  const NUL := 0 as char

  /** The character at `i`, the terminator being one of them. */
  function CharAt(s: string, i: nat): char {
    if i < |s| then s[i] else NUL
  }

  predicate IsSpace(c: char) {
    c == '\r' || c == '\t' || c as int == 0x0B || c as int == 0x0C || c == ' '
  }

  predicate IsAlpha(c: char) {
    'A' <= c <= 'Z' || 'a' <= c <= 'z'
  }

  function ToUpper(c: char): char {
    if 'a' <= c <= 'z' then c - (0x20 as char) else c
  }

  /** The value of a letter or digit. */
  function DigitOf(c: char): nat {
    if IsDigit(c) then c as int - '0' as int
    else if IsAlpha(c) then ToUpper(c) as int - 'A' as int + 10
    else 0
  }

  const DIGITS := "0123456789ABCDEFGHIJKLMNOPQRSTUVWXYZ"
  const SMALL_DIGITS := "0123456789abcdefghijklmnopqrstuvwxyz"

  /** The value of a letter or digit is its place in the row of digits, in either case. */
  lemma DigitOfIsPlace(c: char)
    requires IsAlpha(c) || IsDigit(c)
    ensures DigitOf(c) < 36 && (DIGITS[DigitOf(c)] == c || SMALL_DIGITS[DigitOf(c)] == c)
  {
    var d := DigitOf(c);
    DigitRow(d);
  }

  lemma DigitRow(d: nat)
    requires d < 36
    ensures DIGITS[d] as int == if d < 10 then '0' as int + d else 'A' as int + d - 10
    ensures SMALL_DIGITS[d] as int == if d < 10 then '0' as int + d else 'a' as int + d - 10
  {
  }

  /** The characters the scan for the end goes over. */
  predicate Accepts(c: char, base: int) {
    if IsAlpha(c) then !(ToUpper(c) as int - 'A' as int > base)
    else IsDigit(c) && !(c as int - '0' as int > base)
  }

  // ---------- Wrapping arithmetic ----------

  /** An int of 32 bits, two's complement. */
  function Wrap32(x: int): int {
    (x + 0x8000_0000) % U32 - 0x8000_0000
  }

  lemma WrapCongruent(x: int, k: int)
    ensures Wrap32(x + U32 * k) == Wrap32(x)
  {
  }

  lemma WrapOfProduct(a: int, b: int)
    ensures Wrap32(Wrap32(a) * b) == Wrap32(a * b)
  {
    var k := (a - Wrap32(a)) / U32;
    assert a == Wrap32(a) + U32 * k;
    assert a * b == Wrap32(a) * b + U32 * (k * b) by {
      assert (U32 * k) * b == U32 * (k * b);
    }
    WrapCongruent(Wrap32(a) * b, k * b);
  }

  /** bu::pow on int. */
  method IntPow(base: nat, exponent: nat) returns (val: int)
    ensures val == Wrap32(Power(base, exponent))
  {
    if exponent == 0 {
      return 1;
    }
    val := Wrap32(base);
    assert Power(base, 1) == Times(Power(base, 0), base);
    for i := 1 to exponent
      invariant val == Wrap32(Power(base, i))
    {
      WrapOfProduct(Power(base, i), base);
      TimesIsProduct(Power(base, i), base);
      assert Power(base, i) * base == base * Power(base, i);
      val := Wrap32(val * base);
    }
  }

  /** The int product added for digit `d` with `k` digits behind it. */
  function Term(d: nat, k: nat, base: nat): int {
    Wrap32(Wrap32(Power(base, k)) * d)
  }

  /** The sum strtoll accumulates for a digit sequence. */
  function WrappedValue(ds: seq<nat>, base: nat): int {
    if ds == [] then 0 else Term(ds[0], |ds| - 1, base) + WrappedValue(ds[1..], base)
  }

  /** Horner from the left and the sum of products are the same number. */
  lemma {:induction false} ValueFromFront(ds: seq<nat>, base: nat)
    requires ds != []
    ensures Value(ds, base) == ds[0] * Power(base, |ds| - 1) + Value(ds[1..], base)
  {
    var n := |ds| - 1;
    if n == 0 {
      assert ds[..0] == [] && ds[1..] == [];
      TimesIsProduct(0, base);
    } else {
      ValueFromFront(ds[..n], base);
      assert ds[..n][1..] == ds[1..][..n - 1];
      HornerStep(ds[0], Power(base, n - 1), Value(ds[1..][..n - 1], base), base);
    }
  }

  lemma HornerStep(d: nat, p: nat, rest: nat, base: nat)
    ensures Times(d * p + rest, base) == d * Times(p, base) + Times(rest, base)
  {
    TimesIsProduct(d * p + rest, base);
    TimesIsProduct(rest, base);
    TimesIsProduct(p, base);
    assert base * (d * p + rest) == base * (d * p) + base * rest;
    assert base * (d * p) == d * (base * p);
  }

  /** Whatever wraps, the sum is right modulo 2^32: it is off by `k` times 2^32. */
  lemma {:induction false} WrappedValueCongruent(ds: seq<nat>, base: nat) returns (k: int)
    ensures WrappedValue(ds, base) == Value(ds, base) + U32 * k
  {
    k := 0;
    if ds != [] {
      var rest := WrappedValueCongruent(ds[1..], base);
      ValueFromFront(ds, base);
      TermIs(ds[0], |ds| - 1, base);
      var lead := WrapOffset(ds[0] * Power(base, |ds| - 1));
      k := lead + rest;
    }
  }

  lemma WrapOffset(x: int) returns (k: int)
    ensures Wrap32(x) == x + U32 * k
  {
    k := -((x + 0x8000_0000) / U32);
  }

  lemma TermIs(d: nat, k: nat, base: nat)
    ensures Term(d, k, base) == Wrap32(d * Power(base, k))
  {
    WrapOfProduct(Power(base, k), d);
    assert Power(base, k) * d == d * Power(base, k);
  }

  /** No product of a digit and its power leaves the int range. */
  predicate ProductsFit(ds: seq<nat>, base: nat) {
    ds == [] || (ds[0] * Power(base, |ds| - 1) < 0x8000_0000 && ProductsFit(ds[1..], base))
  }

  /** The sum never exceeds the number, and it is the number exactly when all products fit. */
  lemma {:induction false} WrappedValueExact(ds: seq<nat>, base: nat)
    ensures WrappedValue(ds, base) <= Value(ds, base)
    ensures WrappedValue(ds, base) == Value(ds, base) <==> ProductsFit(ds, base)
  {
    if ds != [] {
      WrappedValueExact(ds[1..], base);
      ValueFromFront(ds, base);
      TermIs(ds[0], |ds| - 1, base);
      WrapOfNat(ds[0] * Power(base, |ds| - 1));
    }
  }

  lemma WrapOfNat(x: nat)
    ensures Wrap32(x) <= x && (Wrap32(x) == x <==> x < 0x8000_0000)
  {
  }

  // ---------- strtoll ----------

  /** A value with the index of *endptr, a failed assertion, or a read in front of the string. */
  datatype ParseResult = Parsed(value: int, end: nat) | AssertionFailed | OutOfString

  /** What the digit loop does on an empty range: its length less one wraps to 2^32 - 1, and the loop goes
    backwards from the start, over letters and digits, until one character is neither or none is left. */
  function EmptyRange(s: string, start: nat): ParseResult
    requires start <= |s|
  {
    if start == 0 then OutOfString
    else if IsAlpha(s[start - 1]) || IsDigit(s[start - 1]) then EmptyRange(s, start - 1)
    else AssertionFailed
  }

  function SkipSpaces(s: string, i: nat): (j: nat)
    requires i <= |s|
    ensures i <= j <= |s|
    decreases |s| - i
  {
    if i < |s| && IsSpace(s[i]) then SkipSpaces(s, i + 1) else i
  }

  function ScanEnd(s: string, i: nat, base: int): (j: nat)
    requires i <= |s|
    ensures i <= j <= |s|
    ensures forall k :: i <= k < j ==> Accepts(s[k], base)
    ensures j < |s| ==> !Accepts(s[j], base)
    decreases |s| - i
  {
    if i < |s| && Accepts(s[i], base) then ScanEnd(s, i + 1, base) else i
  }

  /** Base and start after autodetection. strncmp compares the first characters only, so any leading
    zero with two more characters behind it reads as "0x". */
  function Detect(s: string, i: nat, base: nat): (r: (nat, nat))
    requires i <= |s|
    ensures i <= r.1 <= |s|
  {
    if base != 0 then (base, i)
    else if |s| - i > 2 && s[i] == '0' then (16, i + 2)
    else if |s| - i >= 1 && s[i] == '0' then (8, i)
    else (0, i)
  }

  function DigitsOf(s: string): (ds: seq<nat>)
    ensures |ds| == |s|
  {
    seq(|s|, j requires 0 <= j < |s| => DigitOf(s[j]))
  }

  /** Sign, base and the start of the digits. */
  datatype Prefix = Prefix(negative: bool, base: nat, start: nat)

  function PrefixOf(s: string, base: nat): (p: Prefix)
    ensures p.start <= |s|
  {
    var afterSpaces := SkipSpaces(s, 0);
    var negative := CharAt(s, afterSpaces) == '-';
    var afterSign := if negative || CharAt(s, afterSpaces) == '+' then afterSpaces + 1 else afterSpaces;
    var (b, start) := Detect(s, afterSign, base);
    Prefix(negative, b, start)
  }

  function ParseDigits(s: string, p: Prefix, wantEnd: bool): ParseResult
    requires p.start <= |s|
  {
    var end := ScanEnd(s, p.start, p.base);
    if wantEnd && end == 0 then Parsed(0, 0)
    else if end == p.start then EmptyRange(s, p.start)
    else
      var out := WrappedValue(DigitsOf(s[p.start..end]), p.base);
      Parsed(if p.negative then -out else out, end)
  }

  function Parse(s: string, base: int, wantEnd: bool): ParseResult {
    if (base != 0 && base < 2) || base >= 36 then Parsed(0, 0)
    else ParseDigits(s, PrefixOf(s, base), wantEnd)
  }

  // ---------- How a call ends ----------

  /** Bases that are no bases, and base 36, are refused whatever the string. */
  lemma BasesRefused(s: string, base: int, wantEnd: bool)
    requires base < 0 || base == 1 || base >= 36
    ensures Parse(s, base, wantEnd) == Parsed(0, 0)
  {
  }

  predicate IsSign(c: char) {
    c == '+' || c == '-'
  }

  predicate IsAlnum(c: char) {
    IsAlpha(c) || IsDigit(c)
  }

  /** Behind blanks, sign and what it takes for a prefix, the code finds something to scan over. */
  predicate Takes(s: string, base: nat) {
    var p := PrefixOf(s, base);
    Accepts(CharAt(s, p.start), p.base)
  }

  /** The string starts with nothing the code takes for a blank, a sign or a digit. */
  predicate NothingFirst(s: string, base: nat) {
    s == "" || !(IsSpace(s[0]) || IsSign(s[0]) || Accepts(s[0], base))
  }

  /** In base 0, a zero and a letter or digit that are skipped for 0x. */
  predicate PairFirst(s: string, base: nat) {
    base == 0 && |s| > 2 && s[0] == '0' && IsAlnum(s[1])
  }

  /** The backward loop runs in front of the string exactly when nothing before the start stops it. */
  lemma {:induction false} EmptyRangeIff(s: string, start: nat)
    requires start <= |s|
    ensures EmptyRange(s, start) == OutOfString <==> forall k :: 0 <= k < start ==> IsAlnum(s[k])
    ensures EmptyRange(s, start) == OutOfString || EmptyRange(s, start) == AssertionFailed
  {
    if start > 0 {
      EmptyRangeIff(s, start - 1);
    }
  }

  lemma {:induction false} SkippedAreSpaces(s: string, i: nat, k: nat)
    requires i <= |s| && i <= k < SkipSpaces(s, i)
    ensures IsSpace(s[k])
    decreases k - i
  {
    if i < k {
      SkippedAreSpaces(s, i + 1, k);
    }
  }

  /** Everything before the start is letters and digits only if it is nothing, or a pair. */
  lemma BeforeStart(s: string, base: nat)
    ensures var p := PrefixOf(s, base);
            && ((forall k :: 0 <= k < p.start ==> IsAlnum(s[k])) <==> p.start == 0 || PairFirst(s, base))
            && (p.start == 0 && !Takes(s, base) <==> NothingFirst(s, base))
  {
    var p, blanks := PrefixOf(s, base), SkipSpaces(s, 0);
    if blanks > 0 {
      SkippedAreSpaces(s, 0, 0);
      assert p.start > 0 && !IsAlnum(s[0]);
    } else if s != "" && IsSign(s[0]) {
      assert p.start > 0 && !IsAlnum(s[0]);
    } else if p.start > 0 {
      assert p.start == 2 && base == 0 && |s| > 2 && s[0] == '0';
      assert IsAlnum(s[0]);
    }
  }

  /** How a call ends, for every string and base, with an end pointer and without. It reads in front of the
    string when it finds nothing at its head and has no end pointer, or, with one too, when it skips two letters
    or digits for 0x and finds nothing behind them. */
  lemma ComesBackIff(s: string, base: nat, wantEnd: bool)
    requires base == 0 || 2 <= base < 36
    ensures var r := Parse(s, base, wantEnd);
            && (r.Parsed? <==> Takes(s, base) || (wantEnd && NothingFirst(s, base)))
            && (r == OutOfString <==> !Takes(s, base) && (PairFirst(s, base) || (!wantEnd && NothingFirst(s, base))))
            && (r == AssertionFailed <==> !Takes(s, base) && !PairFirst(s, base) && !NothingFirst(s, base))
  {
    var p := PrefixOf(s, base);
    BeforeStart(s, base);
    EmptyRangeIff(s, p.start);
  }

  /** Without an end pointer a call that comes back returns what it returns with one, and it fails to come
    back on no other strings than those with nothing at their head. */
  lemma EndPointerMatters(s: string, base: int)
    ensures base == 0 || 2 <= base < 36 ==>
              (Parse(s, base, false) != Parse(s, base, true) <==> NothingFirst(s, base))
    ensures Parse(s, base, false).Parsed? ==> Parse(s, base, false) == Parse(s, base, true)
  {
    if base == 0 || 2 <= base < 36 {
      BeforeStart(s, base);
      ComesBackIff(s, base, false);
      ComesBackIff(s, base, true);
    }
  }

  method FindEnd(s: string, start: nat, base: int) returns (end: nat)
    requires start <= |s|
    ensures end == ScanEnd(s, start, base)
  {
    end := start;
    while end < |s| && Accepts(s[end], base)
      invariant start <= end <= |s| && ScanEnd(s, end, base) == ScanEnd(s, start, base)
    {
      end := end + 1;
    }
  }

  method FindStart(s: string) returns (current: nat)
    ensures current == SkipSpaces(s, 0)
  {
    current := 0;
    while current < |s| && IsSpace(s[current])
      invariant current <= |s| && SkipSpaces(s, current) == SkipSpaces(s, 0)
    {
      current := current + 1;
    }
  }

  /** strtoll; `wantEnd` says whether the caller passes an endptr. */
  method Strtoll(s: string, base: int, wantEnd: bool) returns (r: ParseResult)
    ensures r == Parse(s, base, wantEnd)
  {
    if (base != 0 && base < 2) || base >= 36 {
      return Parsed(0, 0);
    }
    var prefix := ReadPrefix(s, base);
    r := ReadDigits(s, prefix, wantEnd);
  }

  method ReadPrefix(s: string, base: nat) returns (p: Prefix)
    ensures p == PrefixOf(s, base)
  {
    var current := FindStart(s);
    var negative := CharAt(s, current) == '-';
    if negative || CharAt(s, current) == '+' {
      current := current + 1;
    }
    var (b, start) := Detect(s, current, base);
    p := Prefix(negative, b, start);
  }

  /** The digit loop on an empty range. */
  method ReadBackwards(s: string, start: nat) returns (r: ParseResult)
    requires start <= |s|
    ensures r == EmptyRange(s, start)
  {
    var i := start;
    while i > 0
      invariant 0 <= i <= start && EmptyRange(s, i) == EmptyRange(s, start)
    {
      i := i - 1;
      if !IsAlpha(s[i]) && !IsDigit(s[i]) {
        return AssertionFailed;
      }
    }
    r := OutOfString;
  }

  method ReadDigits(s: string, p: Prefix, wantEnd: bool) returns (r: ParseResult)
    requires p.start <= |s|
    ensures r == ParseDigits(s, p, wantEnd)
  {
    var end := FindEnd(s, p.start, p.base);
    if wantEnd && end == 0 {
      return Parsed(0, 0);
    }
    if end == p.start {
      r := ReadBackwards(s, p.start);
      return;
    }
    var out := SumDigits(s[p.start..end], p.base, DigitsOf(s[p.start..end]));
    if p.negative {
      out := -out;
    }
    r := Parsed(out, end);
  }

  /** What the digits from `k` on contribute. */
  function SumFrom(ds: seq<nat>, k: nat, base: nat): int
    requires k <= |ds|
  {
    WrappedValue(ds[k..], base)
  }

  lemma SumStep(ds: seq<nat>, k: nat, base: nat)
    requires k < |ds|
    ensures SumFrom(ds, k, base) == Term(ds[k], |ds| - 1 - k, base) + SumFrom(ds, k + 1, base)
  {
    assert ds[k..][1..] == ds[k + 1..];
  }

  lemma SumEnds(ds: seq<nat>, base: nat)
    ensures SumFrom(ds, |ds|, base) == 0 && SumFrom(ds, 0, base) == WrappedValue(ds, base)
  {
    assert ds[0..] == ds;
  }

  /** One digit's contribution, with both products in int. */
  method DigitProduct(digit: char, i: nat, base: nat) returns (toAdd: int)
    ensures toAdd == Term(DigitOf(digit), i, base)
  {
    toAdd := IntPow(base, i);
    toAdd := Wrap32(toAdd * DigitOf(digit));
  }

  /** One round of the digit loop. */
  method AddDigit(text: string, i: nat, base: nat, ghost ds: seq<nat>, out: int) returns (sum: int)
    requires i < |text| && (IsAlpha(text[|text| - 1 - i]) || IsDigit(text[|text| - 1 - i]))
    requires |ds| == |text| && ds[|text| - 1 - i] == DigitOf(text[|text| - 1 - i])
    requires out == SumFrom(ds, |text| - i, base)
    ensures sum == SumFrom(ds, |text| - i - 1, base)
  {
    var digits := |text| - 1;
    var toAdd := DigitProduct(text[digits - i], i, base);
    SumStep(ds, digits - i, base);
    sum := out + toAdd;
  }

  /** The digit loop, least significant digit first. Its assertion isxdigit holds of every letter. */
  method SumDigits(text: string, base: nat, ghost ds: seq<nat>) returns (out: int)
    requires text != [] && forall k :: 0 <= k < |text| ==> IsAlpha(text[k]) || IsDigit(text[k])
    requires |ds| == |text| && forall k :: 0 <= k < |text| ==> ds[k] == DigitOf(text[k])
    ensures out == WrappedValue(ds, base)
  {
    SumEnds(ds, base);
    out := 0;
    var i := 0;
    while i < |text|
      invariant i <= |text| && out == SumFrom(ds, |text| - i, base)
    {
      out := AddDigit(text, i, base, ds, out);
      i := i + 1;
    }
  }
}
