/** The kernel symbol table of kernel/debugsymbols.cpp: a character-by-character parser for the output
  of `nm -n`, and the lookup of a function by address. */
module DebugSymbols {
  import opened Digits
  import opened Wrappers
  import opened Stdlib
  import PrintParse
  import Stdio

  datatype SymbolEntry = SymbolEntry(name: string, offset: u32)

  datatype State = ReadingAddress | ReadingSymbol | ReadingType

  /** The variables of the loop. */
  datatype Parser = Parser(state: State, address: string, symbol: string, offset: u32, symbols: seq<SymbolEntry>)

  function Start(): Parser {
    Parser(ReadingAddress, "", "", 0, [])
  }

  /** strtoll(address, nullptr, 16) stored in a u32; None when there are no digits. */
  function AddressOf(address: string): Option<u32> {
    match Parse(address, 16, false)
    case Parsed(v, _) => Some(v % U32)
    case _ => None
  }

  /** One character; None is a failed assertion or a stray read. */
  function StepChar(p: Parser, c: char): Option<Parser> {
    if c == '\n' then
      if p.state != ReadingSymbol then None
      else
        var entry := SymbolEntry(p.symbol + [NUL], p.offset);
        Some(p.(state := ReadingAddress, symbol := "", symbols := p.symbols + [entry]))
    else if c != ' ' then
      match p.state
      case ReadingAddress => Some(p.(address := p.address + [c]))
      case ReadingSymbol => Some(p.(symbol := p.symbol + [c]))
      case ReadingType => Some(p)
    else
      match p.state
      case ReadingAddress =>
        (match AddressOf(p.address)
         case None => None
         case Some(offset) => Some(p.(state := ReadingType, address := "", offset := offset)))
      case ReadingType => Some(p.(state := ReadingSymbol))
      case ReadingSymbol => Some(p.(symbol := p.symbol + [c]))
  }

  function RunParser(p: Parser, text: string): Option<Parser>
    decreases |text|
  {
    if text == "" then Some(p)
    else match StepChar(p, text[0])
      case None => None
      case Some(p') => RunParser(p', text[1..])
  }

  lemma {:induction false} RunAppend(p: Parser, a: string, b: string)
    ensures RunParser(p, a + b) ==
            match RunParser(p, a)
            case None => None
            case Some(q) => RunParser(q, b)
    decreases |a|
  {
    if a == "" {
      assert a + b == b;
    } else {
      assert (a + b)[1..] == a[1..] + b;
      match StepChar(p, a[0])
      case None =>
      case Some(p') => RunAppend(p', a[1..], b);
    }
  }

  // ---------- Lines of nm ----------

  datatype NmLine = NmLine(address: string, kind: string, name: string)

  predicate IsHexDigit(c: char) {
    '0' <= c <= '9' || 'a' <= c <= 'f' || 'A' <= c <= 'F'
  }

  /** A line as nm prints it. Names may contain spaces. */
  predicate WellFormed(l: NmLine) {
    && l.address != "" && (forall j :: 0 <= j < |l.address| ==> IsHexDigit(l.address[j]))
    && ' ' !in l.kind && '\n' !in l.kind
    && '\n' !in l.name
  }

  function LineText(l: NmLine): string {
    l.address + " " + l.kind + " " + l.name + "\n"
  }

  function FileText(lines: seq<NmLine>): string {
    if lines == [] then "" else LineText(lines[0]) + FileText(lines[1..])
  }

  /** What a line says: the name, terminated, and the address modulo 2^32. */
  function SymbolOf(l: NmLine): SymbolEntry {
    SymbolEntry(l.name + [NUL], Value(DigitsOf(l.address), 16) % U32)
  }

  function SymbolsOf(lines: seq<NmLine>): seq<SymbolEntry> {
    seq(|lines|, i requires 0 <= i < |lines| => SymbolOf(lines[i]))
  }

  /** Although strtoll's products wrap, the address is right modulo 2^32, for any number of digits. */
  lemma AddressRecovered(address: string)
    requires address != "" && forall j :: 0 <= j < |address| ==> IsHexDigit(address[j])
    ensures AddressOf(address) == Some(Value(DigitsOf(address), 16) % U32)
  {
    PrintParse.ScanAll(address, 0, 16);
    assert address[0..|address|] == address;
    assert CharAt(address, 0) == address[0];
    var k := WrappedValueCongruent(DigitsOf(address), 16);
    RemainderOfSum(Value(DigitsOf(address), 16), k);
  }

  lemma RemainderOfSum(x: int, k: int)
    ensures (x + U32 * k) % U32 == x % U32
  {
  }

  lemma {:induction false} ReadAddress(p: Parser, text: string)
    requires p.state == ReadingAddress && ' ' !in text && '\n' !in text
    ensures RunParser(p, text) == Some(p.(address := p.address + text))
    decreases |text|
  {
    if text == "" {
      assert p.address + text == p.address;
    } else {
      ReadAddress(p.(address := p.address + [text[0]]), text[1..]);
      assert p.address + [text[0]] + text[1..] == p.address + text;
    }
  }

  lemma {:induction false} SkipType(p: Parser, text: string)
    requires p.state == ReadingType && ' ' !in text && '\n' !in text
    ensures RunParser(p, text) == Some(p)
    decreases |text|
  {
    if text != "" {
      SkipType(p, text[1..]);
    }
  }

  lemma {:induction false} ReadName(p: Parser, text: string)
    requires p.state == ReadingSymbol && '\n' !in text
    ensures RunParser(p, text) == Some(p.(symbol := p.symbol + text))
    decreases |text|
  {
    if text == "" {
      assert p.symbol + text == p.symbol;
    } else {
      ReadName(p.(symbol := p.symbol + [text[0]]), text[1..]);
      assert p.symbol + [text[0]] + text[1..] == p.symbol + text;
    }
  }

  lemma OneChar(p: Parser, c: char)
    ensures RunParser(p, [c]) == StepChar(p, c)
  {
    assert [c][1..] == "";
    match StepChar(p, c)
    case None =>
    case Some(q) => assert RunParser(q, "") == Some(q);
  }

  /** A line read between lines adds its symbol. */
  lemma ReadLine(p: Parser, l: NmLine)
    requires p.state == ReadingAddress && p.address == "" && p.symbol == "" && WellFormed(l)
    ensures RunParser(p, LineText(l))
         == Some(p.(offset := SymbolOf(l).offset, symbols := p.symbols + [SymbolOf(l)]))
  {
    NoBlanksInAddress(l.address);
    ReadAddress(p, l.address);
    assert "" + l.address == l.address;
    var p1 := p.(address := l.address);
    AddressRecovered(l.address);
    OneChar(p1, ' ');
    var p2 := p.(state := ReadingType, offset := SymbolOf(l).offset);
    assert StepChar(p1, ' ') == Some(p2);
    SkipType(p2, l.kind);
    OneChar(p2, ' ');
    var p3 := p2.(state := ReadingSymbol);
    ReadName(p3, l.name);
    assert "" + l.name == l.name;
    var p4 := p3.(symbol := l.name);
    OneChar(p4, '\n');
    RunAppend(p, l.address, " ");
    RunAppend(p, l.address + " ", l.kind);
    RunAppend(p, l.address + " " + l.kind, " ");
    RunAppend(p, l.address + " " + l.kind + " ", l.name);
    RunAppend(p, l.address + " " + l.kind + " " + l.name, "\n");
  }

  lemma NoBlanksInAddress(s: string)
    requires forall j :: 0 <= j < |s| ==> IsHexDigit(s[j])
    ensures ' ' !in s && '\n' !in s
  {
  }

  /** Parsing any file of nm lines recovers its symbols, in order. */
  lemma {:induction false} ParseRecoversSymbols(p: Parser, lines: seq<NmLine>)
    requires p.state == ReadingAddress && p.address == "" && p.symbol == ""
    requires forall i :: 0 <= i < |lines| ==> WellFormed(lines[i])
    ensures RunParser(p, FileText(lines)).Some?
    ensures RunParser(p, FileText(lines)).value.symbols == p.symbols + SymbolsOf(lines)
    decreases |lines|
  {
    if lines == [] {
      assert p.symbols + SymbolsOf(lines) == p.symbols;
    } else {
      ReadLine(p, lines[0]);
      var q := RunParser(p, LineText(lines[0])).value;
      RunAppend(p, LineText(lines[0]), FileText(lines[1..]));
      ParseRecoversSymbols(q, lines[1..]);
      assert SymbolsOf(lines) == [SymbolOf(lines[0])] + SymbolsOf(lines[1..]);
      assert p.symbols + [SymbolOf(lines[0])] + SymbolsOf(lines[1..]) == p.symbols + SymbolsOf(lines);
    }
  }

  lemma AddressOfParsed(s: string, v: u32, n: nat)
    requires Parse(s, 16, false) == Parsed(if v < 0x8000_0000 then v else v - U32, n)
    ensures AddressOf(s) == Some(v)
  {
  }

  /** An address printed with eight digits, as nm does for this kernel, comes back exactly. */
  lemma PrintedAddressRecovered(v: u32, uppercase: bool)
    ensures var ds := Stdio.Printed(v, 16, Stdio.HEX_DIGITS, Stdio.HEX_DIGITS);
            && (forall j :: 0 <= j < |ds| ==> ds[j] < 16)
            && AddressOf(Stdio.Text(ds, uppercase)) == Some(v)
  {
    var ds := Stdio.Printed(v, 16, Stdio.HEX_DIGITS, Stdio.HEX_DIGITS);
    PrintParse.UnsignedRoundTrip(v, 16, Stdio.HEX_DIGITS, uppercase, false);
    AddressOfParsed(Stdio.Text(ds, uppercase), v, |ds|);
  }

  // ---------- Any text ----------

  /** The place of the first `c`, or the length. */
  function FirstOf(s: string, c: char): (n: nat)
    ensures n <= |s| && c !in s[..n] && (n < |s| ==> s[n] == c)
  {
    if s == "" || s[0] == c then 0 else
      var n := FirstOf(s[1..], c);
      assert s[..n + 1] == [s[0]] + s[1..][..n];
      n + 1
  }

  /** What comes before the first `c`, and behind it. */
  function Before(s: string, c: char): string {
    s[..FirstOf(s, c)]
  }

  function Behind(s: string, c: char): string
    requires c in s
  {
    s[FirstOf(s, c) + 1..]
  }

  /** The symbol of a line: its first word is the address, and what comes behind the second blank is the name. None
    for a line without two blanks, or with a first word that strtoll does not come back from. */
  function SymbolIn(line: string): Option<SymbolEntry> {
    if ' ' !in line || ' ' !in Behind(line, ' ') then None
    else match AddressOf(Before(line, ' '))
      case None => None
      case Some(offset) => Some(SymbolEntry(Behind(Behind(line, ' '), ' ') + [NUL], offset))
  }

  /** The symbols of a text, line by line. Behind the last newline there need not be a whole line, but what is there
    is read. */
  function SymbolsIn(text: string): Option<seq<SymbolEntry>>
    decreases |text|
  {
    if '\n' !in text then
      if ' ' in text && AddressOf(Before(text, ' ')) == None then None else Some([])
    else match SymbolIn(Before(text, '\n'))
      case None => None
      case Some(symbol) =>
        match SymbolsIn(Behind(text, '\n'))
        case None => None
        case Some(symbols) => Some([symbol] + symbols)
  }

  lemma Parts(s: string, c: char)
    requires c in s
    ensures s == Before(s, c) + [c] + Behind(s, c) && c !in Before(s, c)
  {
    var n := FirstOf(s, c);
    assert s[..|s|] == s;
    assert s == s[..n] + [s[n]] + s[n + 1..];
  }

  /** The parser at a line's end, given what stands before it. */
  function AtLineEnd(p: Parser, line: string): Option<Parser> {
    if ' ' !in line then Some(p.(address := line))
    else match AddressOf(Before(line, ' '))
      case None => None
      case Some(offset) =>
        var q := p.(offset := offset);
        var rest := Behind(line, ' ');
        Some(if ' ' !in rest then q.(state := ReadingType)
             else q.(state := ReadingSymbol, symbol := Behind(rest, ' ')))
  }

  /** Behind the address. */
  lemma RunRest(p: Parser, rest: string)
    requires p.state == ReadingType && p.symbol == "" && '\n' !in rest
    ensures RunParser(p, rest)
         == Some(if ' ' !in rest then p else p.(state := ReadingSymbol, symbol := Behind(rest, ' ')))
  {
    if ' ' !in rest {
      SkipType(p, rest);
    } else {
      Parts(rest, ' ');
      var kind, name := Before(rest, ' '), Behind(rest, ' ');
      SkipType(p, kind);
      OneChar(p, ' ');
      RunAppend(p, kind, " ");
      RunAppend(p, kind + " ", name);
      ReadName(p.(state := ReadingSymbol), name);
      assert "" + name == name;
    }
  }

  lemma RunLine(p: Parser, line: string)
    requires p.state == ReadingAddress && p.address == "" && p.symbol == "" && '\n' !in line
    ensures RunParser(p, line) == AtLineEnd(p, line)
  {
    if ' ' !in line {
      ReadAddress(p, line);
      assert "" + line == line;
    } else {
      Parts(line, ' ');
      var word, rest := Before(line, ' '), Behind(line, ' ');
      ReadAddress(p, word);
      assert "" + word == word;
      OneChar(p.(address := word), ' ');
      RunAppend(p, word, " ");
      RunAppend(p, word + " ", rest);
      if AddressOf(word).Some? {
        RunRest(p.(state := ReadingType, offset := AddressOf(word).value), rest);
      }
    }
  }

  /** The newline behind a line adds its symbol, if it has one. */
  lemma NewlineEnds(p: Parser, line: string)
    requires p.state == ReadingAddress && p.address == "" && p.symbol == ""
    ensures (match AtLineEnd(p, line) case None => None case Some(q) => RunParser(q, "\n"))
         == (match SymbolIn(line)
             case None => None
             case Some(symbol) => Some(p.(offset := symbol.offset, symbols := p.symbols + [symbol])))
  {
    if AtLineEnd(p, line).Some? {
      OneChar(AtLineEnd(p, line).value, '\n');
    }
  }

  /** The parser after a line and its newline. */
  function AfterLine(p: Parser, line: string): Option<Parser> {
    match SymbolIn(line)
    case None => None
    case Some(symbol) => Some(p.(offset := symbol.offset, symbols := p.symbols + [symbol]))
  }

  lemma RunWholeLine(p: Parser, line: string, rest: string)
    requires p.state == ReadingAddress && p.address == "" && p.symbol == "" && '\n' !in line
    ensures RunParser(p, line + ['\n'] + rest)
         == match AfterLine(p, line)
            case None => None
            case Some(q) => RunParser(q, rest)
  {
    RunLine(p, line);
    NewlineEnds(p, line);
    RunAppend(p, line, "\n");
    RunAppend(p, line + "\n", rest);
  }

  /** `r`, where the loop comes from `p`, has these symbols more. */
  ghost predicate Loads(p: Parser, r: Option<Parser>, more: Option<seq<SymbolEntry>>) {
    match more
    case None => r == None
    case Some(symbols) => r.Some? && r.value.symbols == p.symbols + symbols
  }

  lemma RunTail(p: Parser, text: string)
    requires p.state == ReadingAddress && p.address == "" && p.symbol == "" && '\n' !in text
    ensures Loads(p, RunParser(p, text), SymbolsIn(text))
  {
    RunLine(p, text);
    assert p.symbols + [] == p.symbols;
  }

  function WithSymbol(symbol: Option<SymbolEntry>, more: Option<seq<SymbolEntry>>): Option<seq<SymbolEntry>> {
    if symbol == None || more == None then None else Some([symbol.value] + more.value)
  }

  lemma SymbolsOfLine(text: string)
    requires '\n' in text
    ensures |Behind(text, '\n')| < |text|
    ensures SymbolsIn(text) == WithSymbol(SymbolIn(Before(text, '\n')), SymbolsIn(Behind(text, '\n')))
  {
    Parts(text, '\n');
  }

  lemma LoadsLine(p: Parser, symbol: Option<SymbolEntry>, more: Option<seq<SymbolEntry>>, r: Option<Parser>)
    requires match symbol
             case None => r == None
             case Some(s) => Loads(p.(offset := s.offset, symbols := p.symbols + [s]), r, more)
    ensures Loads(p, r, WithSymbol(symbol, more))
  {
    if symbol.Some? && more.Some? {
      assert p.symbols + [symbol.value] + more.value == p.symbols + ([symbol.value] + more.value);
    }
  }

  lemma RunText(p: Parser, line: string, rest: string, text: string)
    requires p.state == ReadingAddress && p.address == "" && p.symbol == ""
    requires '\n' in text && line == Before(text, '\n') && rest == Behind(text, '\n')
    ensures |rest| < |text|
    ensures RunParser(p, text) == match AfterLine(p, line) case None => None case Some(q) => RunParser(q, rest)
  {
    Parts(text, '\n');
    RunWholeLine(p, line, rest);
  }

  /** For every text: the loop comes to its end exactly when every line has a symbol and what is behind the last
    newline can be read, and then it has those symbols, in order. */
  lemma {:induction false} LoadsAnyText(p: Parser, text: string)
    requires p.state == ReadingAddress && p.address == "" && p.symbol == ""
    ensures Loads(p, RunParser(p, text), SymbolsIn(text))
    decreases |text|
  {
    if '\n' !in text {
      RunTail(p, text);
    } else {
      var line, rest := Before(text, '\n'), Behind(text, '\n');
      RunText(p, line, rest, text);
      var q := AfterLine(p, line);
      if q.Some? {
        LoadsAnyText(q.value, rest);
      }
      LoadsLine(p, SymbolIn(line), SymbolsIn(rest), RunParser(p, text));
      SymbolsOfLine(text);
    }
  }

  // ---------- Lookup ----------

  /** How many symbols from `from` on the lookup passes before one starts behind pc. */
  function Passed(symbols: seq<SymbolEntry>, pc: u32, from: nat := 0): (n: nat)
    requires from <= |symbols|
    ensures from <= n <= |symbols|
    ensures forall j :: from <= j < n ==> symbols[j].offset <= pc
    ensures n < |symbols| ==> pc < symbols[n].offset
    decreases |symbols| - from
  {
    if from == |symbols| || pc < symbols[from].offset then from else Passed(symbols, pc, from + 1)
  }

  ghost predicate Sorted(symbols: seq<SymbolEntry>) {
    forall i, j :: 0 <= i < j < |symbols| ==> symbols[i].offset <= symbols[j].offset
  }

  /** In a sorted table the lookup finds the last symbol at or below pc. */
  lemma LookupIsLastAtOrBelow(symbols: seq<SymbolEntry>, pc: u32, i: nat)
    requires Sorted(symbols) && i < |symbols|
    ensures symbols[i].offset <= pc <==> i < Passed(symbols, pc)
  {
  }

  class SymbolTable {
    var symbols: seq<SymbolEntry>

    constructor ()
      ensures symbols == []
    {
      symbols := [];
    }

    /** The parser loop of load_debug_symbols; false is a kernel panic. */
    method Load(contents: string) returns (ok: bool)
      requires symbols == []
      modifies this
      ensures match RunParser(Start(), contents)
              case None => !ok
              case Some(p) => ok && symbols == p.symbols
      ensures ok <==> SymbolsIn(contents).Some?
      ensures ok ==> symbols == SymbolsIn(contents).value
    {
      LoadsAnyText(Start(), contents);
      assert forall symbols: seq<SymbolEntry> :: Start().symbols + symbols == symbols;
      var state := ReadingAddress;
      var currentAddress, currentSymbol := "", "";
      var currentOffset: u32 := 0;
      var i := 0;
      assert contents[0..] == contents;
      while i < |contents|
        invariant i <= |contents|
        invariant RunParser(Parser(state, currentAddress, currentSymbol, currentOffset, symbols), contents[i..])
               == RunParser(Start(), contents)
      {
        var c := contents[i];
        assert contents[i..][0] == c && contents[i..][1..] == contents[i + 1..];
        if c == '\n' {
          if state != ReadingSymbol {
            return false;
          }
          currentSymbol := currentSymbol + [NUL];
          symbols := symbols + [SymbolEntry(currentSymbol, currentOffset)];
          state := ReadingAddress;
          currentSymbol := "";
        } else if c != ' ' {
          match state
          case ReadingAddress => currentAddress := currentAddress + [c];
          case ReadingSymbol => currentSymbol := currentSymbol + [c];
          case ReadingType =>
        } else {
          match state
          case ReadingAddress =>
            var value := Strtoll(currentAddress, 16, false);
            if !value.Parsed? {
              return false;
            }
            currentOffset := value.value % U32;
            state := ReadingType;
            currentAddress := "";
          case ReadingType => state := ReadingSymbol;
          case ReadingSymbol => currentSymbol := currentSymbol + [c];
        }
        i := i + 1;
      }
      ok := true;
    }

    method FunctionNameFromPc(pc: u32) returns (name: string)
      ensures name == if symbols == [] then "<missing debug symbols>"
                      else if Passed(symbols, pc) == 0 then "<unknown>"
                      else symbols[Passed(symbols, pc) - 1].name
    {
      if symbols == [] {
        return "<missing debug symbols>";
      }
      name := "<unknown>";
      var i := 0;
      while i < |symbols|
        invariant i <= |symbols| && Passed(symbols, pc, i) == Passed(symbols, pc)
        invariant name == if i == 0 then "<unknown>" else symbols[i - 1].name
      {
        if pc < symbols[i].offset {
          break;
        }
        name := symbols[i].name;
        i := i + 1;
      }
    }
  }

  /** From the file to the lookup: with addresses in order, the name found for pc is that of the last
    line at or below it. */
  lemma FileLookup(lines: seq<NmLine>, pc: u32, i: nat)
    requires forall k :: 0 <= k < |lines| ==> WellFormed(lines[k])
    requires Sorted(SymbolsOf(lines)) && i < |lines|
    requires SymbolOf(lines[i]).offset <= pc && (i + 1 < |lines| ==> pc < SymbolOf(lines[i + 1]).offset)
    ensures RunParser(Start(), FileText(lines)).Some?
    ensures var symbols := RunParser(Start(), FileText(lines)).value.symbols;
            |symbols| == |lines| && Passed(symbols, pc) == i + 1 && symbols[i].name == lines[i].name + [NUL]
  {
    ParseRecoversSymbols(Start(), lines);
    var symbols := SymbolsOf(lines);
    assert Start().symbols + symbols == symbols;
    LookupBetween(symbols, pc, i);
  }

  lemma LookupBetween(symbols: seq<SymbolEntry>, pc: u32, i: nat)
    requires Sorted(symbols) && i < |symbols|
    requires symbols[i].offset <= pc && (i + 1 < |symbols| ==> pc < symbols[i + 1].offset)
    ensures Passed(symbols, pc) == i + 1
  {
    LookupIsLastAtOrBelow(symbols, pc, i);
    if i + 1 < |symbols| {
      LookupIsLastAtOrBelow(symbols, pc, i + 1);
    }
  }
}
