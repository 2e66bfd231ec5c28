/** The VGA text console: an 80x25 buffer scrolled in place, as a window on a screen that only grows. */
module Vga {

  const WIDTH: nat := 80
  const HEIGHT: nat := 25
  const LIGHT_GREY_ON_BLACK: nat := 7
  const NEWLINE: nat := 10
  const RETURN: nat := 13

  /** A cell: the character in the low byte, the colour in the high byte. */
  function Cell(c: nat, color: nat): nat {
    c % 256 + color % 256 * 256
  }

  function Blank(n: nat, color: nat): (cells: seq<nat>)
    ensures |cells| == n
  {
    seq(n, _ => Cell(32, color))
  }

  /** The unbounded screen: rows of WIDTH cells one after the other, and the cursor. */
  datatype Screen = Screen(cells: seq<nat>, row: nat, column: nat) {
    predicate Valid() {
      && |cells| % WIDTH == 0 && |cells| >= WIDTH * HEIGHT && column < WIDTH
      && |cells| / WIDTH - HEIGHT <= row < |cells| / WIDTH
    }

    /** The first row the window shows. */
    function Top(): int {
      |cells| / WIDTH - HEIGHT
    }
  }

  /** Start of the next row; a blank row is added below the last one. */
  function NextRow(s: Screen, color: nat): (s': Screen)
    requires s.Valid()
    ensures s'.Valid()
  {
    if (s.row + 1) * WIDTH == |s.cells| then Screen(s.cells + Blank(WIDTH, color), s.row + 1, 0)
    else Screen(s.cells, s.row + 1, 0)
  }

  function Feed(s: Screen, color: nat, c: nat): (s': Screen)
    requires s.Valid()
    ensures s'.Valid()
  {
    if c == NEWLINE then NextRow(s, color)
    else if c == RETURN then s.(column := 0)
    else
      var written := s.(cells := s.cells[s.row * WIDTH + s.column := Cell(c, color)]);
      if s.column + 1 == WIDTH then NextRow(written, color) else written.(column := s.column + 1)
  }

  function FeedAll(s: Screen, color: nat, text: seq<nat>): (s': Screen)
    requires s.Valid()
    ensures s'.Valid()
  {
    if text == [] then s else Feed(FeedAll(s, color, text[..|text| - 1]), color, text[|text| - 1])
  }

  function Cleared(): (s: Screen)
    ensures s.Valid()
  {
    Screen(Blank(WIDTH * HEIGHT, LIGHT_GREY_ON_BLACK), 0, 0)
  }

  class Console {
    const buffer: array<nat>

    var row: nat
    var column: nat
    var color: nat

    /** The buffer is the last HEIGHT rows of the screen, with the same cursor. */
    ghost predicate Shows(s: Screen)
      reads this, buffer
    {
      && s.Valid() && buffer.Length == WIDTH * HEIGHT
      && buffer[..] == s.cells[|s.cells| - WIDTH * HEIGHT..]
      && row == s.row - s.Top() && column == s.column
    }

    method BlankRow(y: nat)
      requires buffer.Length == WIDTH * HEIGHT && y < HEIGHT
      modifies buffer
      ensures forall k :: 0 <= k < WIDTH * HEIGHT ==>
                buffer[k] == if y * WIDTH <= k < (y + 1) * WIDTH then Cell(32, color) else old(buffer[k])
    {
      hide Cell;
      var x := 0;
      while x < WIDTH
        invariant 0 <= x <= WIDTH
        invariant forall k :: 0 <= k < WIDTH * HEIGHT ==>
                    buffer[k] == if y * WIDTH <= k < y * WIDTH + x then Cell(32, color) else old(buffer[k])
        modifies buffer
      {
        buffer[y * WIDTH + x] := Cell(32, color);
        x := x + 1;
      }
    }

    /** vga_init */
    constructor ()
      ensures Shows(Cleared()) && color == 7 && row == 0 && column == 0 && fresh(buffer)
      ensures buffer.Length == 2000 && forall k :: 0 <= k < 2000 ==> buffer[k] == 0x720
    {
      row, column, color := 0, 0, LIGHT_GREY_ON_BLACK;
      buffer := new nat[WIDTH * HEIGHT];
      new;
      assert Cell(32, color) == 0x720;
      hide Cell;
      var y := 0;
      while y < HEIGHT
        invariant 0 <= y <= HEIGHT
        invariant forall k :: 0 <= k < y * WIDTH ==> buffer[k] == Cell(32, color)
        modifies buffer
      {
        BlankRow(y);
        y := y + 1;
      }
      assert buffer[..] == Blank(WIDTH * HEIGHT, color);
    }

    method SetColor(c: nat)
      modifies `color
      ensures color == c
    {
      color := c;
    }

    /** The inner loop of the scroll: row y takes the cells of the row below. */
    method CopyRowUp(y: nat)
      requires buffer.Length == WIDTH * HEIGHT && y < HEIGHT - 1
      modifies buffer
      ensures forall k :: 0 <= k < WIDTH * HEIGHT ==>
                buffer[k] == if y * WIDTH <= k < (y + 1) * WIDTH then old(buffer[k + WIDTH]) else old(buffer[k])
    {
      var x := 0;
      while x < WIDTH
        invariant 0 <= x <= WIDTH
        invariant forall k :: 0 <= k < WIDTH * HEIGHT ==>
                    buffer[k] == if y * WIDTH <= k < y * WIDTH + x then old(buffer[k + WIDTH]) else old(buffer[k])
        modifies buffer
      {
        buffer[y * WIDTH + x] := buffer[(y + 1) * WIDTH + x];
        x := x + 1;
      }
    }

    /** Moves every row up by one in place, blanks the last row and puts the cursor on it. */
    method Scroll()
      requires buffer.Length == WIDTH * HEIGHT
      modifies `row, buffer
      ensures buffer[..] == old(buffer[..])[WIDTH..] + Blank(WIDTH, color)
      ensures row == HEIGHT - 1
    {
      hide Cell;
      ghost var was := buffer[..];
      var y := 0;
      while y < HEIGHT - 1
        invariant 0 <= y <= HEIGHT - 1
        invariant forall k :: 0 <= k < y * WIDTH ==> buffer[k] == was[k + WIDTH]
        invariant forall k :: y * WIDTH <= k < WIDTH * HEIGHT ==> buffer[k] == was[k]
        modifies buffer
      {
        CopyRowUp(y);
        y := y + 1;
      }
      BlankRow(HEIGHT - 1);
      row := HEIGHT - 1;
      assert buffer[..] == was[WIDTH..] + Blank(WIDTH, color);
    }

    /** Cursor to the start of the next row, scrolling past the last one. */
    method Advance(ghost s: Screen)
      requires Shows(s)
      modifies `row, `column, buffer
      ensures Shows(NextRow(s, color))
    {
      column := 0;
      row := row + 1;
      if row == HEIGHT {
        Scroll();
        var n := |s.cells| - WIDTH * HEIGHT;
        assert (s.cells + Blank(WIDTH, color))[n + WIDTH..] == s.cells[n..][WIDTH..] + Blank(WIDTH, color);
      }
    }

    /** The cell under the cursor is written. */
    method PutEntryAt(cell: nat, ghost s: Screen)
      requires Shows(s)
      modifies buffer
      ensures Shows(s.(cells := s.cells[s.row * WIDTH + s.column := cell]))
    {
      ghost var at := s.row * WIDTH + s.column;
      ghost var n := |s.cells| - WIDTH * HEIGHT;
      assert at - n == row * WIDTH + column;
      ghost var was := buffer[..];
      buffer[row * WIDTH + column] := cell;
      assert buffer[..] == was[at - n := cell] == s.cells[at := cell][n..];
    }

    /** vga_putchar */
    method PutChar(c: nat, ghost s: Screen)
      requires Shows(s)
      modifies `row, `column, buffer
      ensures Shows(Feed(s, color, c))
    {
      hide Cell, Blank, NextRow;
      if c == NEWLINE {
        Advance(s);
        return;
      }
      if c == RETURN {
        column := 0;
        return;
      }
      ghost var written := s.(cells := s.cells[s.row * WIDTH + s.column := Cell(c, color)]);
      PutEntryAt(Cell(c, color), s);
      if column + 1 == WIDTH {
        Advance(written);
      } else {
        column := column + 1;
      }
    }

    /** vga_write */
    method Write(data: seq<nat>, ghost s: Screen)
      requires Shows(s)
      modifies `row, `column, buffer
      ensures Shows(FeedAll(s, color, data))
    {
      assert s.Valid();
      hide Shows, Feed;
      var i := 0;
      while i < |data|
        invariant 0 <= i <= |data|
        invariant Shows(FeedAll(s, color, data[..i]))
        modifies `row, `column, buffer
      {
        assert data[..i + 1][..i] == data[..i];
        PutChar(data[i], FeedAll(s, color, data[..i]));
        i := i + 1;
      }
      assert data[..i] == data;
    }
  }

  /** Nothing above the cursor's row ever changes, and the screen only grows. */
  lemma HistoryIsKept(s: Screen, color: nat, c: nat)
    requires s.Valid()
    ensures |Feed(s, color, c).cells| >= |s.cells| && Feed(s, color, c).row >= s.row
    ensures Feed(s, color, c).cells[..s.row * WIDTH] == s.cells[..s.row * WIDTH]
  {
  }

  /** Plain text from a cleared screen is laid out cell by cell, wrapping without a gap, however long it is. */
  lemma {:induction false} PlainTextIsLinear(color: nat, text: seq<nat>)
    requires forall k :: 0 <= k < |text| ==> text[k] != NEWLINE && text[k] != RETURN
    ensures var s := FeedAll(Cleared(), color, text);
            && s.row * WIDTH + s.column == |text| < |s.cells|
            && forall k :: 0 <= k < |text| ==> s.cells[k] == Cell(text[k], color)
  {
    if text == [] {
    } else {
      PlainTextIsLinear(color, text[..|text| - 1]);
    }
  }

  /** A cell holds the character in its low byte and the colour in its high byte. */
  lemma CellBytes(c: nat, color: nat)
    requires c < 256 && color < 256
    ensures Cell(c, color) % 256 == c && Cell(c, color) / 256 == color
  {
  }

  /** Text of one row: no newline, no carriage return. */
  predicate Plain(text: seq<nat>) {
    forall k :: 0 <= k < |text| ==> text[k] != 10 && text[k] != 13
  }

  lemma {:induction false} FeedAllAppend(s: Screen, color: nat, a: seq<nat>, b: seq<nat>)
    requires s.Valid()
    ensures FeedAll(s, color, a + b) == FeedAll(FeedAll(s, color, a), color, b)
  {
    hide Feed;
    if b == [] {
      assert a + b == a;
    } else {
      var n := |b| - 1;
      assert (a + b)[..|a + b| - 1] == a + b[..n];
      FeedAllAppend(s, color, a, b[..n]);
    }
  }

  lemma FeedOne(s: Screen, color: nat, c: nat)
    requires s.Valid()
    ensures FeedAll(s, color, [c]) == Feed(s, color, c)
  {
    assert [c][..0] == [];
  }

  /** Plain text that fits in the row goes into it from the cursor on; the cursor follows and nothing else changes. */
  lemma {:induction false} RowIsWritten(s: Screen, color: nat, text: seq<nat>)
    requires s.Valid() && Plain(text) && s.column + |text| < 80
    ensures var (s', at) := (FeedAll(s, color, text), s.row * 80 + s.column);
            && s'.row == s.row && s'.column == s.column + |text| && |s'.cells| == |s.cells|
            && forall k :: 0 <= k < |s.cells| ==>
                 s'.cells[k] == if at <= k < at + |text| then Cell(text[k - at], color) else s.cells[k]
  {
    hide Cell;
    if text == [] {
    } else {
      RowIsWritten(s, color, text[..|text| - 1]);
    }
  }

  /** Character 13 only sets the column to 0. */
  lemma ReturnKeepsRow(s: Screen, color: nat)
    requires s.Valid()
    ensures Feed(s, color, 13).cells == s.cells && Feed(s, color, 13).row == s.row && Feed(s, color, 13).column == 0
  {
  }

  /** Text after a carriage return overwrites the row from its start, and leaves the rest of it and all other rows. */
  lemma ReturnOverwrites(s: Screen, color: nat, text: seq<nat>)
    requires s.Valid() && Plain(text) && |text| < 80
    ensures var s' := FeedAll(s, color, [13] + text);
            && s'.row == s.row && s'.column == |text| && |s'.cells| == |s.cells|
            && forall k :: 0 <= k < |s.cells| ==>
                 s'.cells[k] == if s.row * 80 <= k < s.row * 80 + |text| then Cell(text[k - s.row * 80], color) else s.cells[k]
  {
    hide Feed, FeedAll, Cell;
    FeedAllAppend(s, color, [13], text);
    FeedOne(s, color, 13);
    ReturnKeepsRow(s, color);
    RowIsWritten(Feed(s, color, 13), color, text);
  }

  /** Character 10 goes to the start of the next row; cells stay, and a row added below is blank. */
  lemma NewlineStartsRow(s: Screen, color: nat)
    requires s.Valid()
    ensures var s' := Feed(s, color, 10);
            && s'.row == s.row + 1 && s'.column == 0 && |s'.cells| >= |s.cells| && s'.cells[..|s.cells|] == s.cells
            && forall k :: |s.cells| <= k < |s'.cells| ==> s'.cells[k] == 32 + color % 256 * 256
  {
  }

  /** The lines with a newline between each and the next. */
  function Join(lines: seq<seq<nat>>): seq<nat>
    requires lines != []
  {
    if |lines| == 1 then lines[0] else Join(lines[..|lines| - 1]) + [10] + lines[|lines| - 1]
  }

  /** Column j of a row that shows a line: the line's character, or a blank after its end. */
  predicate CellShows(cell: nat, color: nat, line: seq<nat>, j: nat) {
    if j < |line| then cell == Cell(line[j], color) else cell % 256 == 32
  }

  function RowOf(cells: seq<nat>, i: nat): (r: seq<nat>)
    requires 80 * i + 80 <= |cells|
    ensures |r| == 80
  {
    cells[80 * i..80 * i + 80]
  }

  ghost predicate RowShows(cells: seq<nat>, color: nat, i: nat, line: seq<nat>) {
    80 * i + 80 <= |cells| && forall j: nat :: j < 80 ==> CellShows(RowOf(cells, i)[j], color, line, j)
  }

  ghost predicate BlankFrom(cells: seq<nat>, at: nat) {
    forall k :: at <= k < |cells| ==> cells[k] % 256 == 32
  }

  /** Line i stands at the start of row i, with blanks to the end of the row, and all is blank below the last line. */
  ghost predicate ShowsLines(s: Screen, color: nat, lines: seq<seq<nat>>) {
    && s.Valid() && s.row == |lines| - 1
    && (forall i: nat :: i < |lines| ==> RowShows(s.cells, color, i, lines[i]))
    && BlankFrom(s.cells, 80 * |lines|)
  }

  lemma RowStays(cells: seq<nat>, cells': seq<nat>, color: nat, i: nat, line: seq<nat>)
    requires RowShows(cells, color, i, line) && |cells'| >= |cells|
    requires forall k :: 80 * i <= k < 80 * i + 80 ==> cells'[k] == cells[k]
    ensures RowShows(cells', color, i, line)
  {
    hide CellShows;
    assert RowOf(cells', i) == RowOf(cells, i);
  }

  /** A line written into a blank row. */
  lemma RowIsFilled(s: Screen, color: nat, line: seq<nat>)
    requires s.Valid() && s.column == 0 && Plain(line) && |line| < 80 && BlankFrom(s.cells, s.row * 80)
    ensures var s' := FeedAll(s, color, line);
            && s'.row == s.row && s'.column == |line| && |s'.cells| == |s.cells|
            && RowShows(s'.cells, color, s.row, line) && BlankFrom(s'.cells, s.row * 80 + 80)
            && forall k :: 0 <= k < s.row * 80 ==> s'.cells[k] == s.cells[k]
  {
    hide FeedAll, Cell;
    RowIsWritten(s, color, line);
    var s' := FeedAll(s, color, line);
    var row := RowOf(s'.cells, s.row);
    forall j: nat | j < 80 ensures CellShows(row[j], color, line, j) {
      assert row[j] == s'.cells[80 * s.row + j];
    }
  }

  lemma FirstLineShows(color: nat, line: seq<nat>)
    requires Plain(line) && |line| < 80
    ensures ShowsLines(FeedAll(Cleared(), color, line), color, [line])
    ensures FeedAll(Cleared(), color, line).column == |line|
  {
    hide FeedAll, RowShows;
    RowIsFilled(Cleared(), color, line);
  }

  lemma RowFits(cells: seq<nat>, color: nat, i: nat, line: seq<nat>)
    requires RowShows(cells, color, i, line)
    ensures 80 * i + 80 <= |cells|
  {
  }

  lemma NewlineKeepsLines(s: Screen, color: nat, lines: seq<seq<nat>>)
    requires lines != [] && ShowsLines(s, color, lines)
    ensures var m := Feed(s, color, 10);
            && m.row == |lines| && m.column == 0 && BlankFrom(m.cells, 80 * |lines|)
            && forall i: nat :: i < |lines| ==> RowShows(m.cells, color, i, lines[i])
  {
    hide Feed, RowShows;
    NewlineStartsRow(s, color);
    var m := Feed(s, color, 10);
    forall k | 0 <= k < |s.cells| ensures m.cells[k] == s.cells[k] {
      assert m.cells[k] == m.cells[..|s.cells|][k];
    }
    forall i: nat | i < |lines| ensures RowShows(m.cells, color, i, lines[i]) {
      assert 80 * i + 80 <= |s.cells| by { RowFits(s.cells, color, i, lines[i]); }
      RowStays(s.cells, m.cells, color, i, lines[i]);
    }
  }

  lemma NextLineShows(s: Screen, color: nat, lines: seq<seq<nat>>, line: seq<nat>)
    requires lines != [] && ShowsLines(s, color, lines) && Plain(line) && |line| < 80
    ensures var s' := FeedAll(Feed(s, color, 10), color, line);
            ShowsLines(s', color, lines + [line]) && s'.column == |line|
  {
    NewlineKeepsLines(s, color, lines);
    hide FeedAll, Feed, RowShows, BlankFrom, RowOf, CellShows, Plain;
    var m := Feed(s, color, 10);
    RowIsFilled(m, color, line);
    var s' := FeedAll(m, color, line);
    forall i: nat | i < |lines| ensures RowShows(s'.cells, color, i, lines[i]) {
      RowFits(m.cells, color, i, lines[i]);
      RowStays(m.cells, s'.cells, color, i, lines[i]);
    }
    var all := lines + [line];
    forall i: nat | i < |all| ensures RowShows(s'.cells, color, i, all[i]) {
      assert all[i] == if i < |lines| then lines[i] else line;
    }
  }

  /**
   * Lines shorter than a row, however many, joined by newlines and written to a cleared screen: line i stands at the start of
   * row i with blanks after it, and the cursor is at the end of the last line.
   */
  lemma {:induction false} LinesAreRows(color: nat, lines: seq<seq<nat>>)
    requires lines != [] && forall i :: 0 <= i < |lines| ==> Plain(lines[i]) && |lines[i]| < 80
    ensures var s := FeedAll(Cleared(), color, Join(lines));
            ShowsLines(s, color, lines) && s.column == |lines[|lines| - 1]|
  {
    hide FeedAll, Feed, ShowsLines;
    if |lines| == 1 {
      FirstLineShows(color, lines[0]);
      assert lines == [lines[0]];
    } else {
      var before, line := lines[..|lines| - 1], lines[|lines| - 1];
      LinesAreRows(color, before);
      var s := FeedAll(Cleared(), color, Join(before));
      FeedAllAppend(Cleared(), color, Join(before) + [10], line);
      FeedAllAppend(Cleared(), color, Join(before), [10]);
      FeedOne(s, color, 10);
      NextLineShows(s, color, before, line);
      assert lines == before + [line];
    }
  }
}
