// From a call of printf to the cells of the screen.
module PrintedScreen {
  import opened CInt
  import opened CStrings
  import opened Screens
  import opened TextTerminal
  import opened Formatting
  import opened Printing

  // h is everything written before.  Character j of a text written in one call
  // stands in the cell the layout gives it, unless the screen is cleared before
  // the call ends; and the cursor ends up behind the whole text.
  lemma TextOnScreen(h: seq<Glyph>, text: seq<byte>, attr: byte, j: nat)
    requires j < |text|
    ensures var before, gs := h + Glyphs(text[..j], attr), h + Glyphs(text, attr);
      var screen := Write(START, gs);
      && (text[j] != NEWLINE && Page(before) == Page(gs) ==>
        && 0 <= Position(before) - CELLS * Page(gs) < CELLS
        && screen.cells[Position(before) - CELLS * Page(gs)] == Entry(text[j], attr))
      && screen.column == LastLine(gs) % WIDTH
      && screen.row == Rows(gs) % HEIGHT
  {
    var gs := h + Glyphs(text, attr);
    Layout(gs);
    assert gs[..|h| + j] == h + Glyphs(text[..j], attr);
    if text[j] != NEWLINE && Page(gs[..|h| + j]) == Page(gs) {
      StaysVisible(gs, |h| + j);
    }
  }

  ghost predicate StandsAt(screen: Screen, before: seq<Glyph>, gs: seq<Glyph>, c: byte, attr: byte)
    requires |screen.cells| == CELLS
  {
    c != NEWLINE && Page(before) == Page(gs) ==>
      var k := Position(before) - CELLS * Page(gs);
      0 <= k < CELLS && screen.cells[k] == 0x100 * attr + c
  }

  // If a call's arguments match and its text fits an int, what printf sends
  // leaves the screen as one write of the formatted text would, with every
  // character of it where it belongs.
  lemma CharacterOnScreen(h: seq<Glyph>, f: seq<byte>, args: seq<Arg>, attr: byte, j: nat)
    requires Matches(f, args) && j < |Format(f, args)| <= INT_MAX
    ensures var text := Run(ToScreen, Pieces(f, args), 0).text;
      var gs := h + Glyphs(text, attr);
      && text == Format(f, args)
      && Write(START, gs) == Write(Write(START, h), Glyphs(Format(f, args), attr))
      && StandsAt(Write(START, gs), h + Glyphs(text[..j], attr), gs, text[j], attr)
  {
    hide Format, Run, Pieces, Write, Renders;
    PrintfFormats(f, args);
    WriteConcat(START, h, Glyphs(Format(f, args), attr));
    TextOnScreen(h, Format(f, args), attr, j);
  }

  // The same of a call on the real terminal: afterwards the cells of video
  // memory hold the characters of the text.
  method PrintShown(console: Console, format: array<byte>, fmt: nat, args: seq<Arg>) returns (r: Outcome)
    requires console.Valid() && console.Foreign(format) && Terminated(format[..], fmt)
    requires Matches(Text(format[..], fmt), args) && |Format(Text(format[..], fmt), args)| <= INT_MAX
    modifies console.terminal, console.terminal.buffer, console.serial, console.itoa.buf
    ensures console.Valid() && console.Attr() == old(console.Attr())
    ensures var text, h, gs := Format(Text(old(format[..]), fmt), args), old(console.terminal.stream),
        console.terminal.stream;
      && Renders(Text(old(format[..]), fmt), args, text)
      && r == Returned(|text|)
      && gs == h + Glyphs(text, console.Attr())
      && (forall j :: 0 <= j < |text| ==>
        StandsAt(console.terminal.Shot(), h + Glyphs(text[..j], console.Attr()), gs, text[j], console.Attr()))
    ensures old(console.terminal.foreground) == GREEN && old(console.terminal.background) == BLACK ==>
      console.Attr() == 0x28
  {
    hide Format, Matches, Run, Pieces, Write, StandsAt, Renders;
    ghost var f, h, attr := Text(format[..], fmt), console.terminal.stream, console.Attr();
    ghost var text := Format(f, args);
    TextAttribute(console.terminal);
    PrintfFormats(f, args);
    r := console.Printf(ToScreen, format, fmt, args);
    forall j | 0 <= j < |text|
      ensures StandsAt(console.terminal.Shot(), h + Glyphs(text[..j], attr), console.terminal.stream, text[j], attr)
    {
      CharacterOnScreen(h, f, args, attr, j);
    }
  }
}
