// The text terminal: the static variables of kernel/arch/i386/tty.c and the
// VGA memory they describe, kept equal to the pure screen of everything
// written since initialisation.
module TextTerminal {
  import opened CInt
  import opened Screens

  // The glyphs terminal_write makes of a string.
  function Glyphs(data: seq<byte>, attr: byte): (gs: seq<Glyph>)
    ensures |gs| == |data|
    ensures forall i :: 0 <= i < |data| ==> gs[i] == Glyph(data[i], attr)
  {
    seq(|data|, i requires 0 <= i < |data| => Glyph(data[i], attr))
  }

  lemma GlyphsConcat(a: seq<byte>, b: seq<byte>, attr: byte)
    ensures Glyphs(a + b, attr) == Glyphs(a, attr) + Glyphs(b, attr)
  {}

  class Terminal {
    var row: nat
    var column: nat
    var foreground: bv8
    var background: bv8
    var blankColour: byte
    const buffer: array<word>

    // The cursor location registers of the CRT controller (0x0F and 0x0E).
    var cursorLow: byte
    var cursorHigh: byte

    ghost var stream: seq<Glyph>
    ghost var clears: nat

    ghost function Shot(): Screen
      requires buffer.Length > CELLS
      reads this, buffer
    {
      Screen(row, column, buffer[..CELLS], clears)
    }

    ghost predicate Valid()
      reads this, buffer
    {
      && buffer.Length > CELLS
      && blankColour == EntryColour(GREEN, BLACK)
      && Shot() == Write(START, stream)
      && (stream != [] ==> cursorLow + 0x100 * cursorHigh == 80 * row + column)
    }

    // terminal_initialise.  VGA memory extends past the visible cells.
    constructor (memory: array<word>)
      requires memory.Length > CELLS
      modifies memory
      ensures Valid() && buffer == memory && stream == []
      ensures foreground == GREEN && background == BLACK && PlainAttr() == 0x28
    {
      row, column, clears, stream := 0, 0, 0, [];
      foreground, background := GREEN, BLACK;
      blankColour := EntryColour(GREEN, BLACK);
      cursorLow, cursorHigh := 0, 0;
      buffer := memory;
      new;
      for y := 0 to HEIGHT
        invariant row == 0 && column == 0 && clears == 0 && stream == []
        invariant foreground == GREEN && background == BLACK
        invariant blankColour == EntryColour(GREEN, BLACK)
        invariant forall k :: 0 <= k < y * WIDTH ==> buffer[k] == INITIAL_BLANK
      {
        for x := 0 to WIDTH
          invariant row == 0 && column == 0 && clears == 0 && stream == []
          invariant foreground == GREEN && background == BLACK
          invariant blankColour == EntryColour(GREEN, BLACK)
          invariant forall k :: 0 <= k < y * WIDTH + x ==> buffer[k] == INITIAL_BLANK
        {
          buffer[y * WIDTH + x] := Entry(BLANK, VgaAttr(0, background, 1, foreground));
        }
      }
      assert buffer[..CELLS] == START.cells;
    }

    method SetColour(fg: bv8, bg: bv8)
      requires Valid()
      modifies this`foreground, this`background
      ensures Valid() && foreground == fg && background == bg
    {
      foreground, background := fg, bg;
    }

    // terminal_cls.  It also blanks the cell after the last visible one.
    method Cls()
      requires buffer.Length > CELLS
      modifies buffer, this`clears
      ensures clears == old(clears) + 1
      ensures buffer[..CELLS] == AllCells(Entry(BLANK, blankColour))
      ensures buffer[CELLS] == Entry(BLANK, blankColour)
      ensures buffer[CELLS + 1..] == old(buffer[CELLS + 1..])
    {
      var i := WIDTH * HEIGHT;
      while i >= 0
        invariant -1 <= i <= CELLS && clears == old(clears)
        invariant forall k :: i < k <= CELLS ==> buffer[k] == Entry(BLANK, blankColour)
        invariant forall k :: CELLS < k < buffer.Length ==> buffer[k] == old(buffer[k])
        decreases i
      {
        buffer[i] := Entry(BLANK, blankColour);
        i := i - 1;
      }
      assert buffer[..CELLS] == AllCells(Entry(BLANK, blankColour));
      clears := clears + 1;
    }

    method UpdateCursor(x: nat, y: nat)
      requires x < WIDTH && y < HEIGHT
      modifies this`cursorLow, this`cursorHigh
      ensures cursorLow + 0x100 * cursorHigh == 80 * y + x
    {
      var pos := (y * WIDTH + x) % 0x1_0000;
      cursorLow := pos % 0x100;
      cursorHigh := (pos / 0x100) % 0x100;
    }

    method PutEntryAt(uc: byte, attr: byte, x: nat, y: nat)
      requires buffer.Length > CELLS && x < WIDTH && y < HEIGHT
      modifies buffer
      ensures buffer[..CELLS] == old(buffer[..CELLS])[y * WIDTH + x := Entry(uc, attr)]
    {
      buffer[y * WIDTH + x] := Entry(uc, attr);
    }

    // The case '\n' of terminal_putchar_attr.
    method NewLine()
      requires buffer.Length > CELLS && WellFormed(Shot()) && blankColour == EntryColour(GREEN, BLACK)
      modifies this`row, this`column, this`clears, buffer
      ensures forall attr :: Shot() == Put(old(Shot()), Glyph(NEWLINE, attr))
    {
      column := 0;
      if row + 1 == HEIGHT {
        row := 0;
        Cls();
      } else {
        row := row + 1;
      }
    }

    // Its default case.
    method PutPlain(c: byte, attr: byte)
      requires buffer.Length > CELLS && WellFormed(Shot()) && blankColour == EntryColour(GREEN, BLACK)
      requires c != NEWLINE
      modifies this`row, this`column, this`clears, buffer
      ensures Shot() == Put(old(Shot()), Glyph(c, attr))
    {
      PutEntryAt(c, attr, column, row);
      column := column + 1;
      if column == WIDTH {
        column := 0;
        row := row + 1;
        if row == HEIGHT {
          row := 0;
          Cls();
        }
      }
    }

    // terminal_putchar_attr
    method PutCharAttr(c: byte, attr: byte)
      requires Valid()
      modifies this`row, this`column, this`clears, this`stream, this`cursorLow, this`cursorHigh, buffer
      ensures Valid()
      ensures stream == old(stream) + [Glyph(c, attr)]
    {
      hide Write, Put;
      if c == NEWLINE {
        NewLine();
      } else {
        PutPlain(c, attr);
      }
      UpdateCursor(column, row);
      WriteSnoc(START, stream, Glyph(c, attr));
      stream := stream + [Glyph(c, attr)];
    }

    // terminal_write_attr
    method WriteAttr(data: seq<byte>, attr: byte) returns (i: nat)
      requires Valid()
      modifies this`row, this`column, this`clears, this`stream, this`cursorLow, this`cursorHigh, buffer
      ensures Valid()
      ensures stream == old(stream) + Glyphs(data, attr)
      ensures i == |data|
    {
      i := 0;
      while i < |data|
        invariant i <= |data|
        invariant Valid()
        invariant stream == old(stream) + Glyphs(data[..i], attr)
      {
        PutCharAttr(data[i], attr);
        assert Glyphs(data[..i + 1], attr) == Glyphs(data[..i], attr) + [Glyph(data[i], attr)];
        i := i + 1;
      }
      assert data[..i] == data;
    }

    // The attribute terminal_putchar uses: the foreground colour goes where
    // vga_attr takes the background, and the other way round.
    function PlainAttr(): byte
      reads this`foreground, this`background
    {
      VgaAttr(0, foreground, 1, background)
    }

    method PutChar(c: byte)
      requires Valid()
      modifies this`row, this`column, this`clears, this`stream, this`cursorLow, this`cursorHigh, buffer
      ensures Valid()
      ensures stream == old(stream) + [Glyph(c, PlainAttr())]
    {
      PutCharAttr(c, PlainAttr());
    }

    // terminal_write
    method WriteText(data: seq<byte>)
      requires Valid()
      modifies this`row, this`column, this`clears, this`stream, this`cursorLow, this`cursorHigh, buffer
      ensures Valid()
      ensures stream == old(stream) + Glyphs(data, PlainAttr())
    {
      for i := 0 to |data|
        invariant Valid()
        invariant stream == old(stream) + Glyphs(data[..i], PlainAttr())
      {
        PutChar(data[i]);
        assert Glyphs(data[..i + 1], PlainAttr()) == Glyphs(data[..i], PlainAttr()) + [Glyph(data[i], PlainAttr())];
      }
      assert data[..|data|] == data;
    }
  }

  // ----- the attributes

  lemma Nibbles(fg: bv8, bg: bv8)
    requires fg < 16 && bg < 16
    ensures (fg << 4) | 8 | bg == (bg << 4) | 8 | fg <==> fg == bg
    ensures (bg << 4) | 8 | fg == fg | (bg << 4) <==> fg >= 8
  {}

  lemma AttributeBits(fg: bv8, bg: bv8)
    ensures VgaAttr(0, bg, 1, fg) as bv8 == (bg << 4) | 8 | fg
    ensures EntryColour(fg, bg) as bv8 == fg | (bg << 4)
  {
    ByteOfBv((0 << 7) | (bg << 4) | (1 << 3) | fg);
    ByteOfBv(fg | (bg << 4));
  }

  lemma SameBits(x: byte, y: byte)
    ensures x as bv8 == y as bv8 <==> x == y
  {
    BvOfByte(x);
    BvOfByte(y);
  }

  lemma Halves(behind: bv8, letter: bv8)
    requires behind < 16 && letter < 16
    ensures ((behind << 4) | 8 | letter) >> 4 == behind && ((behind << 4) | 8 | letter) & 0xF == letter | 8
  {}

  lemma KernelAttribute()
    ensures VgaAttr(0, GREEN, 1, BLACK) == 0x28
  {}

  // A cell that terminal_putchar writes has foreground behind the character
  // (bits 7 to 4), and the character in the bright form of background (bits 3
  // to 0): 0x28 for the kernel's colours.
  lemma TextAttribute(terminal: Terminal)
    ensures terminal.foreground < 16 && terminal.background < 16 ==>
      var attr := terminal.PlainAttr() as bv8;
      attr >> 4 == terminal.foreground && attr & 0xF == terminal.background | 8
    ensures terminal.foreground == GREEN && terminal.background == BLACK ==> terminal.PlainAttr() == 0x28
  {
    hide VgaAttr;
    KernelAttribute();
    AttributeBits(terminal.background, terminal.foreground);
    if terminal.foreground < 16 && terminal.background < 16 {
      Halves(terminal.foreground, terminal.background);
    }
  }

  // So text has the attribute meant for its colours, the foreground in front of
  // the background, exactly when the two are the same.
  lemma ColoursExchanged(terminal: Terminal)
    requires terminal.foreground < 16 && terminal.background < 16
    ensures terminal.PlainAttr() == VgaAttr(0, terminal.background, 1, terminal.foreground)
      <==> terminal.foreground == terminal.background
  {
    var fg, bg := terminal.foreground, terminal.background;
    AttributeBits(fg, bg);
    AttributeBits(bg, fg);
    SameBits(VgaAttr(0, fg, 1, bg), VgaAttr(0, bg, 1, fg));
    Nibbles(fg, bg);
  }

  // terminal_initialise and terminal_cls blank the screen alike exactly when
  // the foreground has its intensity bit.
  lemma BlanksAlike(fg: bv8, bg: bv8)
    requires fg < 16 && bg < 16
    ensures Entry(BLANK, VgaAttr(0, bg, 1, fg)) == Entry(BLANK, EntryColour(fg, bg)) <==> fg >= 8
  {
    AttributeBits(fg, bg);
    SameBits(VgaAttr(0, bg, 1, fg), EntryColour(fg, bg));
    Nibbles(fg, bg);
  }

  // With the kernel's colours the attribute meant, bright green on black, is
  // 0x0A, not the 0x28 of every terminal after initialisation; and a cleared
  // screen's blanks differ from the initial ones.
  lemma AttributesAsCoded(terminal: Terminal)
    requires terminal.foreground == GREEN && terminal.background == BLACK
    ensures terminal.PlainAttr() == 0x28 && VgaAttr(0, terminal.background, 1, terminal.foreground) == 0x0A
    ensures INITIAL_BLANK == 0x0A20 && CLEARED_BLANK == 0x0220
  {}
}
