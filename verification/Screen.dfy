// The text screen as a value: what one character does to it, and where every
// character of a whole stream ends up, in closed form.
module Screens {
  import opened CInt

  const WIDTH: nat := 80
  const HEIGHT: nat := 25
  const CELLS: nat := 2000

  const NEWLINE: byte := 10
  const BLANK: byte := 32

  // A VGA text cell: character in the low byte, attribute in the high one.
  type word = x: int | 0 <= x < 0x1_0000

  function Entry(uc: byte, attr: byte): word {
    uc + 0x100 * attr
  }

  // ((blink<<7)|(bg<<4)|(intensity<<3)|(fg)), cut to uint8_t
  function VgaAttr(blink: bv8, bg: bv8, intensity: bv8, fg: bv8): byte {
    ((blink << 7) | (bg << 4) | (intensity << 3) | fg) as byte
  }

  function EntryColour(fg: bv8, bg: bv8): byte {
    (fg | (bg << 4)) as byte
  }

  const BLACK: bv8 := 0
  const GREEN: bv8 := 2

  // What terminal_initialise fills the screen with, and what terminal_cls does.
  const INITIAL_BLANK: word := Entry(BLANK, VgaAttr(0, BLACK, 1, GREEN))
  const CLEARED_BLANK: word := Entry(BLANK, EntryColour(GREEN, BLACK))

  datatype Glyph = Glyph(ch: byte, attr: byte)

  // clears counts the calls of terminal_cls; the kernel keeps no such count.
  datatype Screen = Screen(row: nat, column: nat, cells: seq<word>, clears: nat)

  ghost predicate WellFormed(s: Screen) {
    s.row < HEIGHT && s.column < WIDTH && |s.cells| == CELLS
  }

  function AllCells(w: word): (cells: seq<word>)
    ensures |cells| == CELLS && forall k :: 0 <= k < CELLS ==> cells[k] == w
  {
    seq(CELLS, _ => w)
  }

  const START: Screen := Screen(0, 0, AllCells(INITIAL_BLANK), 0)

  function Cleared(s: Screen): Screen {
    s.(row := 0, cells := AllCells(CLEARED_BLANK), clears := s.clears + 1)
  }

  // terminal_putchar_attr
  function Put(s: Screen, g: Glyph): (r: Screen)
    requires WellFormed(s)
    ensures WellFormed(r)
  {
    if g.ch == NEWLINE then
      var t := s.(column := 0);
      if s.row + 1 == HEIGHT then Cleared(t) else t.(row := s.row + 1)
    else
      var t := s.(cells := s.cells[s.row * WIDTH + s.column := Entry(g.ch, g.attr)]);
      if s.column + 1 < WIDTH then t.(column := s.column + 1)
      else if s.row + 1 == HEIGHT then Cleared(t.(column := 0))
      else t.(column := 0, row := s.row + 1)
  }

  function Write(s: Screen, gs: seq<Glyph>): (r: Screen)
    requires WellFormed(s)
    ensures WellFormed(r)
  {
    if gs == [] then s else Put(Write(s, gs[..|gs| - 1]), gs[|gs| - 1])
  }

  lemma WriteSnoc(s: Screen, gs: seq<Glyph>, g: Glyph)
    requires WellFormed(s)
    ensures Write(s, gs + [g]) == Put(Write(s, gs), g)
  {
    assert (gs + [g])[..|gs|] == gs;
  }

  lemma {:induction false} WriteConcat(s: Screen, a: seq<Glyph>, b: seq<Glyph>)
    requires WellFormed(s)
    ensures Write(s, a + b) == Write(Write(s, a), b)
  {
    if b == [] {
      assert a + b == a;
    } else {
      WriteConcat(s, a, b[..|b| - 1]);
      assert (a + b)[..|a + b| - 1] == a + b[..|b| - 1];
    }
  }

  // ----- the layout of a stream, in closed form

  // M: the length of the unfinished last line.
  function LastLine(gs: seq<Glyph>): nat {
    if gs == [] || gs[|gs| - 1].ch == NEWLINE then 0 else LastLine(gs[..|gs| - 1]) + 1
  }

  // L_0, L_1, ...: the lengths of the lines ended by a newline.
  function Lines(gs: seq<Glyph>): seq<nat> {
    if gs == [] then []
    else
      var t := gs[..|gs| - 1];
      if gs[|gs| - 1].ch == NEWLINE then Lines(t) + [LastLine(t)] else Lines(t)
  }

  // Which characters of lines of these lengths, the last one unfinished, are
  // newlines.
  function Breaks(ls: seq<nat>, last: nat): seq<bool> {
    if ls == [] then seq(last, _ => false)
    else Breaks(ls[..|ls| - 1], ls[|ls| - 1]) + [true] + seq(last, _ => false)
  }

  // Lines and LastLine are the lengths of the lines of the stream.
  lemma {:induction false} LinesOfStream(gs: seq<Glyph>)
    ensures Breaks(Lines(gs), LastLine(gs)) == seq(|gs|, i requires 0 <= i < |gs| => gs[i].ch == NEWLINE)
  {
    if gs != [] {
      var t, g := gs[..|gs| - 1], gs[|gs| - 1];
      LinesOfStream(t);
      if g.ch == NEWLINE {
        assert Lines(gs)[..|Lines(gs)| - 1] == Lines(t);
      } else {
        BreaksSnoc(Lines(t), LastLine(t));
      }
    }
  }

  lemma BreaksSnoc(ls: seq<nat>, last: nat)
    ensures Breaks(ls, last + 1) == Breaks(ls, last) + [false]
  {
    var f := seq(last, _ => false);
    assert seq(last + 1, _ => false) == f + [false];
    if ls != [] {
      var front := Breaks(ls[..|ls| - 1], ls[|ls| - 1]) + [true];
      assert front + (f + [false]) == (front + f) + [false];
    }
  }

  function RowSum(ls: seq<nat>): nat {
    if ls == [] then 0 else RowSum(ls[..|ls| - 1]) + ls[|ls| - 1] / WIDTH + 1
  }

  // R: the rows begun below the first one, over all pages.
  function Rows(gs: seq<Glyph>): nat {
    RowSum(Lines(gs)) + LastLine(gs) / WIDTH
  }

  function Page(gs: seq<Glyph>): nat {
    Rows(gs) / HEIGHT
  }

  // Where the next character goes, counting cells over all pages.
  function Position(gs: seq<Glyph>): nat {
    WIDTH * Rows(gs) + LastLine(gs) % WIDTH
  }

  lemma PositionStep(gs: seq<Glyph>, g: Glyph)
    ensures g.ch == NEWLINE ==> Rows(gs + [g]) == Rows(gs) + 1 && LastLine(gs + [g]) == 0
    ensures g.ch != NEWLINE ==>
      && LastLine(gs + [g]) == LastLine(gs) + 1
      && Rows(gs + [g]) == Rows(gs) + if LastLine(gs) % WIDTH == WIDTH - 1 then 1 else 0
    ensures Position(gs + [g]) == if g.ch == NEWLINE then WIDTH * (Rows(gs) + 1) else Position(gs) + 1
  {
    var t := gs + [g];
    assert t[..|t| - 1] == gs;
    if g.ch == NEWLINE {
      assert Lines(t)[..|Lines(t)| - 1] == Lines(gs);
    }
  }

  lemma {:induction false} PositionGrows(gs: seq<Glyph>, i: nat, j: nat)
    requires i < j <= |gs|
    ensures Position(gs[..i]) < Position(gs[..j])
    decreases j
  {
    assert gs[..j] == gs[..j - 1] + [gs[j - 1]];
    PositionStep(gs[..j - 1], gs[j - 1]);
    if i < j - 1 {
      PositionGrows(gs, i, j - 1);
    }
  }

  // The cursor and the number of clears after any stream.
  lemma {:induction false} Layout(gs: seq<Glyph>)
    ensures var s := Write(START, gs);
      && s.column == LastLine(gs) % 80
      && s.row == Rows(gs) % 25
      && s.clears == Rows(gs) / 25
  {
    if gs != [] {
      var t, g := gs[..|gs| - 1], gs[|gs| - 1];
      assert gs == t + [g];
      Layout(t);
      PositionStep(t, g);
      RowStep(Rows(t));
      ColumnStep(LastLine(t));
    }
  }

  lemma RowStep(r: nat)
    ensures (r + 1) % HEIGHT == if r % HEIGHT == HEIGHT - 1 then 0 else r % HEIGHT + 1
    ensures (r + 1) / HEIGHT == r / HEIGHT + if r % HEIGHT == HEIGHT - 1 then 1 else 0
  {}

  lemma ColumnStep(m: nat)
    ensures (m + 1) % WIDTH == if m % WIDTH == WIDTH - 1 then 0 else m % WIDTH + 1
  {}

  // Character j of the stream belongs in cell k of the last page.
  ghost predicate Shown(gs: seq<Glyph>, j: nat, k: nat) {
    j < |gs| && gs[j].ch != NEWLINE && Position(gs[..j]) == CELLS * Page(gs) + k
  }

  function BlankOf(page: nat): word {
    if page == 0 then INITIAL_BLANK else CLEARED_BLANK
  }

  ghost predicate CellIs(gs: seq<Glyph>, k: nat, w: word) {
    && (forall j: nat :: Shown(gs, j, k) ==> w == Entry(gs[j].ch, gs[j].attr))
    && ((forall j: nat :: !Shown(gs, j, k)) ==> w == BlankOf(Page(gs)))
  }

  lemma PageBounds(gs: seq<Glyph>)
    ensures Position(gs) == CELLS * Page(gs) + WIDTH * (Rows(gs) % HEIGHT) + LastLine(gs) % WIDTH
    ensures CELLS * Page(gs) <= Position(gs) < CELLS * (Page(gs) + 1)
  {}

  lemma EarlierPositions(t: seq<Glyph>, g: Glyph, j: nat)
    requires j <= |t|
    ensures (t + [g])[..j] == t[..j]
    ensures if j == |t| then Position(t[..j]) == Position(t) else Position(t[..j]) < Position(t)
  {
    assert t[..|t|] == t;
    if j < |t| {
      PositionGrows(t, j, |t|);
    }
  }

  lemma NewPage(t: seq<Glyph>, g: Glyph, k: nat)
    requires Page(t + [g]) == Page(t) + 1
    ensures CellIs(t + [g], k, CLEARED_BLANK)
  {
    PageBounds(t);
    forall j: nat ensures !Shown(t + [g], j, k) {
      if j <= |t| {
        EarlierPositions(t, g, j);
      }
    }
  }

  // Within a page a character changes only what belongs in its own cell.
  lemma ShownStep(t: seq<Glyph>, g: Glyph, j: nat, k: nat)
    requires Page(t + [g]) == Page(t)
    ensures var here := g.ch != NEWLINE && Position(t) == CELLS * Page(t) + k;
      Shown(t + [g], j, k) <==> if here then j == |t| else Shown(t, j, k)
  {
    if j <= |t| {
      EarlierPositions(t, g, j);
    }
  }

  lemma SamePage(t: seq<Glyph>, g: Glyph, k: nat, w: word)
    requires Page(t + [g]) == Page(t) && CellIs(t, k, w)
    ensures var here := g.ch != NEWLINE && Position(t) == CELLS * Page(t) + k;
      CellIs(t + [g], k, if here then Entry(g.ch, g.attr) else w)
  {
    var gs, here := t + [g], g.ch != NEWLINE && Position(t) == CELLS * Page(t) + k;
    forall j: nat ensures Shown(gs, j, k) <==> if here then j == |t| else Shown(t, j, k) {
      ShownStep(t, g, j, k);
    }
    if here {
      assert Shown(gs, |t|, k);
    } else {
      assert forall j: nat :: Shown(t, j, k) ==> gs[j] == t[j];
    }
  }

  // Each cell of the screen holds the character of the stream that belongs
  // there, and a blank if there is none.
  lemma {:induction false} Contents(gs: seq<Glyph>, k: nat)
    requires k < CELLS
    ensures CellIs(gs, k, Write(START, gs).cells[k])
  {
    if gs != [] {
      var t, g := gs[..|gs| - 1], gs[|gs| - 1];
      assert gs == t + [g];
      Contents(t, k);
      PutOnPage(t, g, k);
      if Page(gs) == Page(t) {
        SamePage(t, g, k, Write(START, t).cells[k]);
      } else {
        NewPage(t, g, k);
      }
    }
  }

  // One step of the machine, seen from the page and position of the stream.
  lemma PutOnPage(t: seq<Glyph>, g: Glyph, k: nat)
    requires k < CELLS
    ensures Page(t + [g]) == Page(t) || Page(t + [g]) == Page(t) + 1
    ensures var s := Write(START, t);
      Put(s, g).cells[k] ==
        if Page(t + [g]) != Page(t) then CLEARED_BLANK
        else if g.ch != NEWLINE && Position(t) == CELLS * Page(t) + k then Entry(g.ch, g.attr)
        else s.cells[k]
  {
    Layout(t);
    PositionStep(t, g);
    RowStep(Rows(t));
    PageBounds(t);
  }

  // Two characters never share a cell of one page.
  lemma ShownOnce(gs: seq<Glyph>, i: nat, j: nat, k: nat)
    requires Shown(gs, i, k) && Shown(gs, j, k)
    ensures i == j
  {
    if i < j {
      PositionGrows(gs, i, j);
    } else if j < i {
      PositionGrows(gs, j, i);
    }
  }

  // The characters on the screen are those not followed by a clear, counting
  // the clear that writing the last cell itself brings about.
  lemma ShownIffNotCleared(gs: seq<Glyph>, j: nat)
    requires j < |gs| && gs[j].ch != NEWLINE
    ensures (exists k: nat :: k < CELLS && Shown(gs, j, k))
      <==> Write(START, gs[..j]).clears == Write(START, gs).clears
  {
    Layout(gs[..j]);
    Layout(gs);
    PageBounds(gs[..j]);
    PageBounds(gs);
    if Page(gs[..j]) == Page(gs) {
      assert Shown(gs, j, Position(gs[..j]) - CELLS * Page(gs));
    }
  }

  // While the page stays, so does what was written on it.
  lemma StaysVisible(gs: seq<Glyph>, j: nat)
    requires j < |gs| && gs[j].ch != NEWLINE && Page(gs[..j]) == Page(gs)
    ensures var k := Position(gs[..j]) - CELLS * Page(gs);
      0 <= k < CELLS && Write(START, gs).cells[k] == Entry(gs[j].ch, gs[j].attr)
  {
    PageBounds(gs[..j]);
    var k := Position(gs[..j]) - CELLS * Page(gs);
    Contents(gs, k);
    assert Shown(gs, j, k);
  }
}
