/** The VGA text console of kernel/x86/tty/vga.cpp: a fixed screen of 25 by 80 cells that is always the
  bottom of an unbounded terminal fed the same characters. */
module VgaConsole {

  const TEXT_WIDTH := 80
  const TEXT_HEIGHT := 25

  const LIGHT_GRAY: bv8 := 7
  const WHITE: bv8 := 15

  const SPACE: bv8 := 0x20
  const BACKSPACE: bv8 := 0x08
  const NEWLINE: bv8 := 0x0A
  const RETURN: bv8 := 0x0D

  /** The conversion of a signed char to u16 extends the sign. */
  function CharToU16(c: bv8): bv16 {
    if c & 0x80 != 0 then 0xFF00 | (c as bv16) else c as bv16
  }

  function Entry(c: bv8, color: bv8): bv16 {
    CharToU16(c) | ((color as bv16) << 8)
  }

  /** The glyph byte is always the character; the attribute byte is the colour exactly for characters
    below 0x80, and 0xFF for the others. */
  lemma EntryFields(c: bv8, color: bv8)
    requires color < 16
    ensures Entry(c, color) & 0x00FF == c as bv16
    ensures Entry(c, color) >> 8 == (if c & 0x80 == 0 then color as bv16 else 0xFF)
    ensures Entry(c, color) >> 8 == color as bv16 <==> c & 0x80 == 0
  {
  }

  // ---------- The unbounded terminal ----------

  type Line = s: seq<bv16> | |s| == TEXT_WIDTH witness seq(80, _ => 0)

  function Filled(cell: bv16): Line {
    seq(TEXT_WIDTH, _ => cell)
  }

  /** All lines ever written and the cursor. Lines are only added, never moved or dropped. */
  datatype Terminal = Terminal(lines: seq<Line>, row: nat, col: nat, color: bv8) {
    /** The first line of the last TEXT_HEIGHT. */
    function Top(): int {
      |lines| - TEXT_HEIGHT
    }

    predicate Valid() {
      Top() >= 0 && Top() <= row < |lines| && col < TEXT_WIDTH
    }
  }

  function Cleared(): Terminal {
    Terminal(seq(TEXT_HEIGHT, _ => Filled(Entry(SPACE, WHITE))), 0, 0, LIGHT_GRAY)
  }

  function SetCell(t: Terminal, row: nat, col: nat, c: bv8): Terminal
    requires row < |t.lines| && col < TEXT_WIDTH
  {
    var line: seq<bv16> := t.lines[row];
    t.(lines := t.lines[row := line[col := Entry(c, t.color)]])
  }

  /** Move to the start of the next line, adding one at the bottom if there is none. */
  function NextLine(t: Terminal): Terminal {
    var t' := t.(row := t.row + 1, col := 0);
    if t'.row == |t.lines| then t'.(lines := t.lines + [Filled(0)]) else t'
  }

  function Put(t: Terminal, c: bv8): Terminal
    requires t.Valid()
  {
    if c == NEWLINE then NextLine(t)
    else if c == RETURN then t.(col := 0)
    else if c == BACKSPACE then
      if t.col > 0 then SetCell(t, t.row, t.col - 1, SPACE).(col := t.col - 1) else t
    else
      var t' := SetCell(t, t.row, t.col, c);
      if t.col + 1 == TEXT_WIDTH then NextLine(t') else t'.(col := t.col + 1)
  }

  /** Putting keeps the cursor inside the last TEXT_HEIGHT lines and leaves every earlier line alone. */
  lemma PutStaysInWindow(t: Terminal, c: bv8)
    requires t.Valid()
    ensures Put(t, c).Valid() && |t.lines| <= |Put(t, c).lines| && Put(t, c).color == t.color
    ensures Put(t, c).lines[..t.Top()] == t.lines[..t.Top()]
  {
  }

  function PutAll(t: Terminal, text: seq<bv8>): Terminal
    requires t.Valid()
    ensures PutAll(t, text).Valid()
    decreases |text|
  {
    PutStaysInWindow(t, if text == [] then SPACE else text[0]);
    if text == [] then t else PutAll(Put(t, text[0]), text[1..])
  }

  lemma {:induction false} PutAllAppend(t: Terminal, text: seq<bv8>, c: bv8)
    requires t.Valid()
    ensures PutAll(t, text + [c]) == Put(PutAll(t, text), c)
    decreases |text|
  {
    if text == [] {
      PutStaysInWindow(t, c);
      assert PutAll(Put(t, c), []) == Put(t, c);
      assert [c][1..] == [];
    } else {
      PutStaysInWindow(t, text[0]);
      assert (text + [c])[1..] == text[1..] + [c];
      PutAllAppend(Put(t, text[0]), text[1..], c);
    }
  }

  /** Whatever is written later, lines that have left the window never change. */
  lemma {:induction false} HistoryFrozen(t: Terminal, text: seq<bv8>)
    requires t.Valid()
    ensures |t.lines| <= |PutAll(t, text).lines|
    ensures PutAll(t, text).lines[..t.Top()] == t.lines[..t.Top()]
    decreases |text|
  {
    if text != [] {
      var t' := Put(t, text[0]);
      PutStaysInWindow(t, text[0]);
      HistoryFrozen(t', text[1..]);
      assert t'.lines[..t'.Top()][..t.Top()] == t'.lines[..t.Top()];
      assert PutAll(t, text).lines[..t'.Top()][..t.Top()] == PutAll(t, text).lines[..t.Top()];
    }
  }

  predicate Plain(text: seq<bv8>) {
    forall k :: 0 <= k < |text| ==> text[k] != NEWLINE && text[k] != RETURN && text[k] != BACKSPACE
  }

  /** Line and column `k` characters after (row, col), counting on through the line ends. */
  function RowAfter(t: Terminal, k: nat): nat {
    t.row + (t.col + k) / TEXT_WIDTH
  }

  function ColAfter(t: Terminal, k: nat): nat {
    (t.col + k) % TEXT_WIDTH
  }

  /** Plain text is laid out in reading order: character k stands k cells behind the cursor. */
  lemma {:induction false} PlainTextLayout(t: Terminal, text: seq<bv8>)
    requires t.Valid() && Plain(text)
    ensures var u := PutAll(t, text);
            && u.row == RowAfter(t, |text|) && u.col == ColAfter(t, |text|) && u.color == t.color
            && forall k :: 0 <= k < |text| ==>
                 RowAfter(t, k) < |u.lines| && u.lines[RowAfter(t, k)][ColAfter(t, k)] == Entry(text[k], t.color)
    decreases |text|
  {
    if text != [] {
      var n := |text| - 1;
      var u := PutAll(t, text[..n]);
      PlainTextLayout(t, text[..n]);
      assert text == text[..n] + [text[n]];
      PutAllAppend(t, text[..n], text[n]);
      forall k | 0 <= k < |text|
        ensures RowAfter(t, k) < |Put(u, text[n]).lines|
        ensures Put(u, text[n]).lines[RowAfter(t, k)][ColAfter(t, k)] == Entry(text[k], t.color)
      {
        if k < n {
          PlacesDiffer(t, k, n);
          assert u.lines[RowAfter(t, k)][ColAfter(t, k)] == Entry(text[k], t.color);
        }
        PlainPut(u, text[n], RowAfter(t, k), ColAfter(t, k));
      }
      NextPlace(t, n);
    }
  }

  /** Putting a plain character writes the cursor's cell and moves on by one cell. */
  lemma PlainPut(t: Terminal, c: bv8, row: nat, col: nat)
    requires t.Valid() && c != NEWLINE && c != RETURN && c != BACKSPACE
    ensures var u := Put(t, c);
            && (if t.col + 1 == TEXT_WIDTH then u.row == t.row + 1 && u.col == 0
                else u.row == t.row && u.col == t.col + 1)
            && u.color == t.color && |t.lines| <= |u.lines|
            && (row < |t.lines| && col < TEXT_WIDTH ==>
                  u.lines[row][col] == if row == t.row && col == t.col then Entry(c, t.color) else t.lines[row][col])
  {
  }

  /** No cell of the lines that were there has changed. */
  ghost predicate CellsKept(t: Terminal, u: Terminal) {
    |t.lines| <= |u.lines| && u.lines[..|t.lines|] == t.lines && u.color == t.color
  }

  /** A character and a backspace: the cursor is where it was, its cell is blank, and nothing else has changed. */
  lemma BackspaceErases(t: Terminal, c: bv8)
    requires t.Valid() && Plain([c]) && t.col + 1 < TEXT_WIDTH
    ensures var u := PutAll(t, [c, BACKSPACE]);
            && u.row == t.row && u.col == t.col && u.color == t.color && |u.lines| == |t.lines|
            && forall row, col :: 0 <= row < |t.lines| && 0 <= col < TEXT_WIDTH ==>
                 u.lines[row][col] == if row == t.row && col == t.col then Entry(SPACE, t.color) else t.lines[row][col]
  {
    assert [c, BACKSPACE] == [c] + [BACKSPACE] && [c][0] == c;
    PutAllAppend(t, [c], BACKSPACE);
    PutAllAppend(t, [], c);
    assert [] + [c] == [c];
  }

  /** At the start of a line a backspace changes nothing, the line above included. */
  lemma BackspaceStopsAtLineStart(t: Terminal)
    requires t.Valid() && t.col == 0
    ensures PutAll(t, [BACKSPACE]) == t
  {
    PutAllAppend(t, [], BACKSPACE);
    assert [] + [BACKSPACE] == [BACKSPACE];
  }

  /** Elsewhere it moves back by one cell, which it blanks, whatever was there. */
  lemma BackspaceBlanks(t: Terminal, row: nat, col: nat)
    requires t.Valid() && t.col > 0 && row < |t.lines| && col < TEXT_WIDTH
    ensures var u := PutAll(t, [BACKSPACE]);
            && u.row == t.row && u.col == t.col - 1 && u.color == t.color && |u.lines| == |t.lines|
            && u.lines[row][col]
               == if row == t.row && col == t.col - 1 then Entry(SPACE, t.color) else t.lines[row][col]
  {
    PutAllAppend(t, [], BACKSPACE);
    assert [] + [BACKSPACE] == [BACKSPACE];
  }

  /** A return goes to the start of the line and changes no cell; what follows overwrites the line. */
  lemma ReturnMovesOnly(t: Terminal)
    requires t.Valid()
    ensures var u := PutAll(t, [RETURN]);
            CellsKept(t, u) && |u.lines| == |t.lines| && u.row == t.row && u.col == 0
  {
    PutAllAppend(t, [], RETURN);
    assert [] + [RETURN] == [RETURN];
  }

  /** A newline goes to the start of the next line and changes no cell; at the bottom it adds one line of zeros. */
  lemma NewlineMovesOnly(t: Terminal)
    requires t.Valid()
    ensures var u := PutAll(t, [NEWLINE]);
            && CellsKept(t, u) && u.row == t.row + 1 && u.col == 0
            && (t.row + 1 < |t.lines| ==> |u.lines| == |t.lines|)
            && (t.row + 1 == |t.lines| ==> |u.lines| == |t.lines| + 1 && forall col :: 0 <= col < TEXT_WIDTH ==>
                                             u.lines[|t.lines|][col] == 0)
  {
    PutAllAppend(t, [], NEWLINE);
    assert [] + [NEWLINE] == [NEWLINE];
  }

  lemma NextPlace(t: Terminal, k: nat)
    ensures if ColAfter(t, k) + 1 == TEXT_WIDTH then RowAfter(t, k + 1) == RowAfter(t, k) + 1 && ColAfter(t, k + 1) == 0
            else RowAfter(t, k + 1) == RowAfter(t, k) && ColAfter(t, k + 1) == ColAfter(t, k) + 1
  {
  }

  lemma PlacesDiffer(t: Terminal, j: nat, k: nat)
    requires j < k
    ensures RowAfter(t, j) != RowAfter(t, k) || ColAfter(t, j) != ColAfter(t, k)
  {
  }

  // ---------- The screen ----------

  /** Cell (row, col) of a screen stored line by line. */
  function CellAt(screen: seq<bv16>, row: nat, col: nat): bv16
    requires |screen| == TEXT_WIDTH * TEXT_HEIGHT && row < TEXT_HEIGHT && col < TEXT_WIDTH
  {
    screen[row * TEXT_WIDTH + col]
  }

  /** The screen shows the last TEXT_HEIGHT lines of the terminal. */
  ghost predicate Shows(screen: seq<bv16>, t: Terminal)
    requires |screen| == TEXT_WIDTH * TEXT_HEIGHT && t.Valid()
  {
    forall row, col :: 0 <= row < TEXT_HEIGHT && 0 <= col < TEXT_WIDTH ==>
      CellAt(screen, row, col) == t.lines[t.Top() + row][col]
  }

  lemma SetCellShown(screen: seq<bv16>, t: Terminal, row: nat, col: nat, c: bv8)
    requires |screen| == TEXT_WIDTH * TEXT_HEIGHT && t.Valid() && Shows(screen, t)
    requires row < TEXT_HEIGHT && col < TEXT_WIDTH
    ensures Shows(screen[row * TEXT_WIDTH + col := Entry(c, t.color)], SetCell(t, t.Top() + row, col, c))
  {
    var screen' := screen[row * TEXT_WIDTH + col := Entry(c, t.color)];
    var t' := SetCell(t, t.Top() + row, col, c);
    forall r, k | 0 <= r < TEXT_HEIGHT && 0 <= k < TEXT_WIDTH
      ensures CellAt(screen', r, k) == t'.lines[t'.Top() + r][k]
    {
      assert CellAt(screen, r, k) == t.lines[t.Top() + r][k];
      assert r * TEXT_WIDTH + k == row * TEXT_WIDTH + col <==> r == row && k == col;
    }
  }

  /** Scrolled by one line: every line shows what the next one showed, the last one is zero. */
  ghost predicate ScrolledFrom(before: seq<bv16>, screen: seq<bv16>)
    requires |screen| == |before| == TEXT_WIDTH * TEXT_HEIGHT
  {
    forall row, col :: 0 <= row < TEXT_HEIGHT && 0 <= col < TEXT_WIDTH ==>
      CellAt(screen, row, col) == if row + 1 < TEXT_HEIGHT then CellAt(before, row + 1, col) else 0
  }

  class Vga {
    var row: nat
    var column: nat
    var currentColor: bv8
    const termbuffer: array<bv16>
    /** The terminal this screen is a window onto. */
    ghost var terminal: Terminal

    ghost predicate Valid()
      reads this, termbuffer
    {
      && termbuffer.Length == TEXT_WIDTH * TEXT_HEIGHT
      && terminal.Valid() && terminal.color == currentColor
      && row == terminal.row - terminal.Top() && column == terminal.col
      && Shows(termbuffer[..], terminal)
    }

    constructor ()
      ensures Valid() && fresh(termbuffer) && terminal == Cleared()
    {
      row, column, currentColor := 0, 0, WHITE;
      termbuffer := new bv16[TEXT_WIDTH * TEXT_HEIGHT](_ => 0);
      terminal := Cleared();
      new;
      Clear();
    }

    method Clear()
      requires termbuffer.Length == TEXT_WIDTH * TEXT_HEIGHT
      modifies this, termbuffer
      ensures Valid() && terminal == Cleared()
      ensures row == column == 0 && currentColor == 7
      ensures forall j :: 0 <= j < TEXT_WIDTH * TEXT_HEIGHT ==> termbuffer[j] == 0x0F20
    {
      row, column := 0, 0;
      currentColor := LIGHT_GRAY;
      for y := 0 to TEXT_HEIGHT
        invariant row == 0 && column == 0 && currentColor == LIGHT_GRAY
        invariant forall j :: 0 <= j < y * TEXT_WIDTH ==> termbuffer[j] == Entry(SPACE, WHITE)
      {
        for x := 0 to TEXT_WIDTH
          invariant row == 0 && column == 0 && currentColor == LIGHT_GRAY
          invariant forall j :: 0 <= j < y * TEXT_WIDTH + x ==> termbuffer[j] == Entry(SPACE, WHITE)
        {
          termbuffer[y * TEXT_WIDTH + x] := Entry(SPACE, WHITE);
        }
      }
      terminal := Cleared();
    }

    method WriteCharAt(c: bv8, column: nat, row: nat)
      requires termbuffer.Length == TEXT_WIDTH * TEXT_HEIGHT && row < TEXT_HEIGHT && column < TEXT_WIDTH
      modifies termbuffer
      ensures termbuffer[..] == old(termbuffer[..])[row * TEXT_WIDTH + column := Entry(c, currentColor)]
    {
      var index := row * TEXT_WIDTH + column;
      termbuffer[index] := Entry(c, currentColor);
    }

    /** memcpy of line `from` over the line before it. */
    method CopyLineUp(from: nat)
      requires termbuffer.Length == TEXT_WIDTH * TEXT_HEIGHT && 0 < from < TEXT_HEIGHT
      modifies termbuffer
      ensures forall j :: 0 <= j < TEXT_WIDTH * TEXT_HEIGHT ==>
                termbuffer[j] == if (from - 1) * TEXT_WIDTH <= j < from * TEXT_WIDTH
                                 then old(termbuffer[j + TEXT_WIDTH]) else old(termbuffer[j])
    {
      var previousLine := (from - 1) * TEXT_WIDTH;
      for k := 0 to TEXT_WIDTH
        invariant forall j :: 0 <= j < TEXT_WIDTH * TEXT_HEIGHT ==>
                    termbuffer[j] == if previousLine <= j < previousLine + k then old(termbuffer[j + TEXT_WIDTH])
                                     else old(termbuffer[j])
      {
        termbuffer[previousLine + k] := termbuffer[previousLine + TEXT_WIDTH + k];
      }
    }

    method Scroll()
      requires termbuffer.Length == TEXT_WIDTH * TEXT_HEIGHT
      modifies this`row, this`column, termbuffer
      ensures ScrolledFrom(old(termbuffer[..]), termbuffer[..])
      ensures column == 0 && row == TEXT_HEIGHT - 1
    {
      for i := 1 to TEXT_HEIGHT
        invariant forall j :: 0 <= j < TEXT_WIDTH * TEXT_HEIGHT ==>
                    termbuffer[j] == if j < (i - 1) * TEXT_WIDTH then old(termbuffer[j + TEXT_WIDTH])
                                     else old(termbuffer[j])
      {
        CopyLineUp(i);
      }
      var lastLine := TEXT_WIDTH * (TEXT_HEIGHT - 1);
      for k := 0 to TEXT_WIDTH
        invariant forall j :: 0 <= j < lastLine ==> termbuffer[j] == old(termbuffer[j + TEXT_WIDTH])
        invariant forall j :: lastLine <= j < lastLine + k ==> termbuffer[j] == 0
      {
        termbuffer[lastLine + k] := 0;
      }
      column := 0;
      row := TEXT_HEIGHT - 1;
    }

    method PutChar(c: bv8)
      requires Valid()
      modifies this`row, this`column, this`terminal, termbuffer
      ensures Valid() && terminal == Put(old(terminal), c)
    {
      if c == NEWLINE {
        column := 0;
        row := row + 1;
      } else if c == BACKSPACE {
        if column > 0 {
          column := column - 1;
          Draw(SPACE);
        }
      } else if c == RETURN {
        column := 0;
      } else {
        Draw(c);
        column := column + 1;
      }
      WrapAndScroll();
    }

    /** The screen shows `terminal`, wherever the screen's own cursor is. */
    ghost predicate ScreenOK()
      reads this, termbuffer
    {
      && termbuffer.Length == TEXT_WIDTH * TEXT_HEIGHT
      && terminal.Valid() && terminal.color == currentColor
      && Shows(termbuffer[..], terminal)
    }

    /** write_char_at for the cursor's cell. */
    method Draw(c: bv8)
      requires ScreenOK() && row == terminal.row - terminal.Top() && column < TEXT_WIDTH
      modifies this`terminal, termbuffer
      ensures ScreenOK() && terminal == SetCell(old(terminal), old(terminal).row, column, c)
    {
      SetCellShown(termbuffer[..], terminal, row, column, c);
      WriteCharAt(c, column, row);
      terminal := SetCell(terminal, terminal.row, column, c);
    }

    /** The two checks at the end of putchar, and the terminal's cursor after them. */
    method WrapAndScroll()
      requires ScreenOK() && column <= TEXT_WIDTH
      requires row == terminal.row - terminal.Top() || (row == terminal.row - terminal.Top() + 1 && column == 0)
      modifies this`row, this`column, this`terminal, termbuffer
      ensures Valid()
      ensures terminal == if old(column) == TEXT_WIDTH || old(row) > old(terminal).row - old(terminal).Top()
                          then NextLine(old(terminal)) else old(terminal).(col := old(column))
    {
      ghost var t := terminal;
      if column == TEXT_WIDTH {
        column := 0;
        row := row + 1;
      }
      if row == TEXT_HEIGHT {
        ghost var before := termbuffer[..];
        Scroll();
        ScrollShown(before, termbuffer[..], t);
        terminal := NextLine(t);
      } else if row > t.row - t.Top() {
        terminal := NextLine(t);
      } else {
        terminal := t.(col := column);
      }
    }

    method Write(text: seq<bv8>)
      requires Valid()
      modifies this`row, this`column, this`terminal, termbuffer
      ensures Valid() && terminal == PutAll(old(terminal), text)
    {
      for i := 0 to |text|
        invariant Valid() && terminal == PutAll(old(terminal), text[..i])
      {
        assert text[..i + 1] == text[..i] + [text[i]];
        PutAllAppend(old(terminal), text[..i], text[i]);
        PutChar(text[i]);
      }
      assert text[..|text|] == text;
    }
  }

  lemma ScrollShown(before: seq<bv16>, after: seq<bv16>, t: Terminal)
    requires |before| == |after| == TEXT_WIDTH * TEXT_HEIGHT && t.Valid() && Shows(before, t)
    requires ScrolledFrom(before, after) && t.row == |t.lines| - 1
    ensures Shows(after, NextLine(t))
  {
    var t' := NextLine(t);
    forall row, col | 0 <= row < TEXT_HEIGHT && 0 <= col < TEXT_WIDTH
      ensures CellAt(after, row, col) == t'.lines[t'.Top() + row][col]
    {
      if row < TEXT_HEIGHT - 1 {
        assert CellAt(after, row, col) == CellAt(before, row + 1, col);
      }
    }
  }
}
