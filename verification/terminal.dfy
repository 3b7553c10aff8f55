/**
 * The VGA text terminal as a value: the 80x25 grid of cells, the cursor
 * (column, row position and the signed logical write row), the active colour,
 * the input echo buffer and the two bounded row histories.
 *
 * Every operation of the `Writer` in src/vga_buffer.rs is given here as a
 * function from the old state to the new one; the `Writer` class in module
 * VgaBuffer is proved to compute exactly these functions, and the lemmas
 * below state what the terminal promises about them.
 */
module Terminal {

  const Height: nat := 25
  const Width: nat := 80
  const InputBufferSize: nat := 100
  const MaxHistory: nat := 100

  const Space: bv8 := 0x20
  const Newline: bv8 := 0x0a
  /** The glyph stored in place of every byte that is neither printable nor a newline. */
  const Substitute: bv8 := 0xfe

  /** `usize` is 64 bits wide. */
  const UsizeModulus: int := 0x1_0000_0000_0000_0000
  const UsizeMax: int := UsizeModulus - 1
  const IsizeMin: int := -0x8000_0000_0000_0000

  /** The 16 VGA colours, with their 4-bit palette numbers. */
  datatype Color =
    | Black | Blue | Green | Cyan | Red | Magenta | Brown | LightGray
    | DarkGray | LightBlue | LightGreen | LightCyan | LightRed | Pink | Yellow | White
  {
    function Value(): (v: bv8)
      ensures v < 16
    {
      match this
      case Black => 0 case Blue => 1 case Green => 2 case Cyan => 3
      case Red => 4 case Magenta => 5 case Brown => 6 case LightGray => 7
      case DarkGray => 8 case LightBlue => 9 case LightGreen => 10 case LightCyan => 11
      case LightRed => 12 case Pink => 13 case Yellow => 14 case White => 15
    }
  }

  /** `ColorCode::new`: the background in the high nibble, the foreground in the low nibble. */
  function ColorCodeOf(foreground: Color, background: Color): (code: bv8)
    ensures code & 0x0f == foreground.Value()
    ensures code >> 4 == background.Value()
  {
    (background.Value() << 4) | foreground.Value()
  }

  /** The colour every `Writer` starts with and `print_colored` restores: white on black. */
  function DefaultColor(): bv8 { ColorCodeOf(White, Black) }

  datatype Cell = Cell(ch: bv8, color: bv8)

  /** One screen row, as stored in the grid and in the histories. */
  type Row = r: seq<Cell> | |r| == Width witness seq(Width, _ => Cell(Space, 0))

  function Blank(color: bv8): Row
  {
    seq(Width, _ => Cell(Space, color))
  }

  predicate Printable(b: bv8) { 0x20 <= b <= 0x7e }

  /** The byte `write_byte` stores for a byte other than a newline. */
  function Glyph(b: bv8): (g: bv8)
    ensures Printable(g) || g == Substitute
    ensures g == b <==> Printable(b) || b == Substitute
  {
    if Printable(b) then b else Substitute
  }

  /** The bytes `write_string` passes on to `write_byte`. */
  function StringByte(b: bv8): (s: bv8)
    ensures s == b <==> Printable(b) || b == Newline || b == Substitute
    ensures s != Newline ==> Glyph(s) == Glyph(b)
  {
    if Printable(b) || b == Newline then b else Substitute
  }

  /** The bytes that can ever reach the echo buffer through the `Writer`. */
  predicate EchoByte(b: bv8) { b == Newline || Printable(b) || b == Substitute }

  /** `isize as usize`: two's complement reinterpretation, exact on the isize range. */
  function AsUsize(x: int): (u: nat)
    ensures 0 <= x ==> u == x
    ensures -UsizeModulus <= x < 0 ==> u == x + UsizeModulus
  {
    if x >= 0 then x else x % UsizeModulus
  }

  datatype WriterState = WriterState(
    rows: seq<Row>,
    column: nat,
    rowPosition: nat,
    color: bv8,
    echo: seq<bv8>,
    up: seq<Row>,
    down: seq<Row>,
    writeRow: int)

  /** What holds of every state a `Writer` can be in. */
  predicate WellFormed(t: WriterState)
  {
    && |t.rows| == Height
    && t.column <= Width
    && t.rowPosition < Height
    && |t.echo| <= InputBufferSize
    && (forall i | 0 <= i < |t.echo| :: EchoByte(t.echo[i]))
    && |t.up| <= MaxHistory
    && |t.down| <= MaxHistory
  }

  // ---------------------------------------------------------------------------
  // The bounded buffers

  /** `InputBuffer::push_byte`: append while there is room, drop the byte otherwise. */
  function PushByte(echo: seq<bv8>, b: bv8): (r: seq<bv8>)
    ensures |echo| < InputBufferSize ==> r == echo + [b]
    ensures |echo| >= InputBufferSize ==> r == echo
  {
    if |echo| < InputBufferSize then echo + [b] else echo
  }

  /** A run of `push_byte` calls, oldest byte first. */
  function PushBytes(echo: seq<bv8>, bytes: seq<bv8>): seq<bv8>
    decreases |bytes|
  {
    if bytes == [] then echo else PushBytes(PushByte(echo, bytes[0]), bytes[1..])
  }

  function Min(a: int, b: int): int { if a <= b then a else b }

  function Max(a: int, b: int): int { if a >= b then a else b }

  /**
   * Writing more bytes than there is room for keeps the earliest accepted
   * bytes and drops the rest: the buffer ends up with the first
   * `InputBufferSize` bytes of the whole stream.
   */
  lemma {:induction false} PushBytesKeepsPrefix(echo: seq<bv8>, bytes: seq<bv8>)
    requires |echo| <= InputBufferSize
    ensures PushBytes(echo, bytes) == (echo + bytes)[..Min(InputBufferSize, |echo| + |bytes|)]
    decreases |bytes|
  {
    if bytes != [] {
      var next := PushByte(echo, bytes[0]);
      PushBytesKeepsPrefix(next, bytes[1..]);
      if |echo| < InputBufferSize {
        assert echo + bytes == next + bytes[1..];
      } else {
        assert (echo + bytes)[..InputBufferSize] == echo;
        assert (echo + bytes[1..])[..InputBufferSize] == echo;
      }
    }
  }

  /**
   * `UpBuffer::push_line` / `DownBuffer::push_line`: when the history is
   * full the oldest row (index 0) is evicted before the new row goes on top.
   */
  function PushLine(lines: seq<Row>, line: Row, maxLines: nat): (r: seq<Row>)
    requires maxLines > 0
    ensures |r| > 0 && r[|r| - 1] == line
    ensures |lines| <= maxLines ==> |r| <= maxLines
    ensures |lines| < maxLines ==> r[..|r| - 1] == lines
    ensures |lines| >= maxLines ==> r[..|r| - 1] == lines[1..]
  {
    (if |lines| >= maxLines then lines[1..] else lines) + [line]
  }

  function Last<T>(s: seq<T>): T requires s != [] { s[|s| - 1] }

  function DropLast<T>(s: seq<T>): seq<T> requires s != [] { s[..|s| - 1] }

  /** `pop_line` right after `push_line` gives back the pushed row, and the history lost at most its oldest row. */
  lemma PopAfterPush(lines: seq<Row>, line: Row, maxLines: nat)
    requires 0 < maxLines
    ensures Last(PushLine(lines, line, maxLines)) == line
    ensures DropLast(PushLine(lines, line, maxLines)) == if |lines| < maxLines then lines else lines[1..]
  {
  }

  // ---------------------------------------------------------------------------
  // Scrolling

  /**
   * `scroll_up`, step by step as the source takes them: the bottom row goes
   * onto the up history, rows 0..23 are copied one row down, row 0 is
   * blanked, the row position advances (at most to 24), and row 0 then
   * receives the most recent row of the down history or is blanked again.
   */
  function ScrollUp(t: WriterState): (r: WriterState)
    requires WellFormed(t)
    ensures WellFormed(r)
    ensures r.column == t.column && r.color == t.color && r.echo == t.echo && r.writeRow == t.writeRow
  {
    var up := PushLine(t.up, t.rows[Height - 1], MaxHistory);
    var shifted := ([t.rows[0]] + t.rows[..Height - 1])[0 := Blank(t.color)];
    var rowPosition := if t.rowPosition < Height - 1 then t.rowPosition + 1 else t.rowPosition;
    if t.down == [] then
      t.(rows := shifted[0 := Blank(t.color)], up := up, rowPosition := rowPosition)
    else
      t.(rows := shifted[0 := Last(t.down)], up := up, down := DropLast(t.down), rowPosition := rowPosition)
  }

  /**
   * What `scroll_up` does to the screen: the visible rows move down by one,
   * the bottom row is saved on the up history, the new top row is blank or
   * the most recent row of the down history (which loses it), and nothing
   * else changes.
   */
  lemma ScrollUpEffect(t: WriterState)
    requires WellFormed(t)
    ensures var r := ScrollUp(t);
      && r.up == PushLine(t.up, t.rows[Height - 1], MaxHistory)
      && r.rows[1..] == t.rows[..Height - 1]
      && (t.down == [] ==> r.rows[0] == Blank(t.color) && r.down == [])
      && (t.down != [] ==> r.rows[0] == Last(t.down) && r.down == DropLast(t.down))
      && r.rowPosition == Min(t.rowPosition + 1, Height - 1)
  {
    var r := ScrollUp(t);
    assert r.rows[1..] == t.rows[..Height - 1] by {
      forall i | 0 <= i < Height - 1
        ensures r.rows[1..][i] == t.rows[..Height - 1][i]
      {
      }
    }
  }

  /**
   * `scroll_down`, the mirror image: the top row goes onto the down history,
   * rows 1..24 are copied one row up, row 24 is blanked, the row position is
   * pinned to 24, and row 24 then receives the most recent row of the up
   * history or is blanked again.
   */
  function ScrollDown(t: WriterState): (r: WriterState)
    requires WellFormed(t)
    ensures WellFormed(r)
    ensures r.column == t.column && r.color == t.color && r.echo == t.echo && r.writeRow == t.writeRow
  {
    var down := PushLine(t.down, t.rows[0], MaxHistory);
    var shifted := (t.rows[1..] + [t.rows[Height - 1]])[Height - 1 := Blank(t.color)];
    if t.up == [] then
      t.(rows := shifted[Height - 1 := Blank(t.color)], down := down, rowPosition := Height - 1)
    else
      t.(rows := shifted[Height - 1 := Last(t.up)], up := DropLast(t.up), down := down, rowPosition := Height - 1)
  }

  /** What `scroll_down` does to the screen: the mirror image of `ScrollUpEffect`. */
  lemma ScrollDownEffect(t: WriterState)
    requires WellFormed(t)
    ensures var r := ScrollDown(t);
      && r.down == PushLine(t.down, t.rows[0], MaxHistory)
      && r.rows[..Height - 1] == t.rows[1..]
      && (t.up == [] ==> r.rows[Height - 1] == Blank(t.color) && r.up == [])
      && (t.up != [] ==> r.rows[Height - 1] == Last(t.up) && r.up == DropLast(t.up))
      && r.rowPosition == Height - 1
  {
    var r := ScrollDown(t);
    assert r.rows[..Height - 1] == t.rows[1..] by {
      forall i | 0 <= i < Height - 1
        ensures r.rows[..Height - 1][i] == t.rows[1..][i]
      {
      }
    }
  }

  /**
   * Scrolling up and then down shows exactly the rows that were visible
   * before, whatever the histories held. The up history comes back unchanged
   * unless it was full (then its oldest row is gone), and the down history
   * comes back unchanged unless it was empty (then it holds one blank row).
   */
  lemma {:induction false} ScrollUpThenDown(t: WriterState)
    requires WellFormed(t)
    ensures ScrollDown(ScrollUp(t)).rows == t.rows
    ensures |t.up| < MaxHistory ==> ScrollDown(ScrollUp(t)).up == t.up
    ensures |t.up| == MaxHistory ==> ScrollDown(ScrollUp(t)).up == t.up[1..]
    ensures t.down != [] ==> ScrollDown(ScrollUp(t)).down == t.down
    ensures t.down == [] ==> ScrollDown(ScrollUp(t)).down == [Blank(t.color)]
  {
    var u := ScrollUp(t);
    var d := ScrollDown(u);
    ScrollUpEffect(t);
    ScrollDownEffect(u);
    assert d.rows[..Height - 1] == u.rows[1..] == t.rows[..Height - 1];
    assert d.rows[Height - 1] == t.rows[Height - 1];
    assert d.rows == d.rows[..Height - 1] + [d.rows[Height - 1]];
    assert t.rows == t.rows[..Height - 1] + [t.rows[Height - 1]];
    PopAfterPush(t.up, t.rows[Height - 1], MaxHistory);
    if t.down != [] {
      assert t.down == DropLast(t.down) + [Last(t.down)];
    }
  }

  /** Scrolling down and then up likewise restores the visible rows. */
  lemma {:induction false} ScrollDownThenUp(t: WriterState)
    requires WellFormed(t)
    ensures ScrollUp(ScrollDown(t)).rows == t.rows
    ensures |t.down| < MaxHistory ==> ScrollUp(ScrollDown(t)).down == t.down
    ensures t.up != [] ==> ScrollUp(ScrollDown(t)).up == t.up
  {
    var d := ScrollDown(t);
    var u := ScrollUp(d);
    ScrollDownEffect(t);
    ScrollUpEffect(d);
    assert u.rows[1..] == d.rows[..Height - 1] == t.rows[1..];
    assert u.rows[0] == t.rows[0];
    assert u.rows == [u.rows[0]] + u.rows[1..];
    assert t.rows == [t.rows[0]] + t.rows[1..];
    PopAfterPush(t.down, t.rows[0], MaxHistory);
    if t.up != [] {
      assert t.up == DropLast(t.up) + [Last(t.up)];
    }
  }

  /** One mouse-wheel detent forward, and one step of the upward clamp: `scroll_up` then `write_row += 1`. */
  function ScrollUpAndAdvance(t: WriterState): (r: WriterState)
    requires WellFormed(t)
    ensures WellFormed(r)
    ensures r.writeRow == t.writeRow + 1
    ensures r.column == t.column && r.color == t.color && r.echo == t.echo
  {
    ScrollUp(t).(writeRow := t.writeRow + 1)
  }

  /** One mouse-wheel detent back, and one step of the downward clamp: `scroll_down` then `write_row -= 1`. */
  function ScrollDownAndRetract(t: WriterState): (r: WriterState)
    requires WellFormed(t)
    ensures WellFormed(r)
    ensures r.writeRow == t.writeRow - 1
    ensures r.column == t.column && r.color == t.color && r.echo == t.echo
  {
    ScrollDown(t).(writeRow := t.writeRow - 1)
  }

  /** `n` rounds of `scroll_up` each followed by `write_row += 1`. */
  function ScrollUpSteps(t: WriterState, n: nat): (r: WriterState)
    requires WellFormed(t)
    ensures WellFormed(r)
    ensures r.writeRow == t.writeRow + n
    ensures r.column == t.column && r.color == t.color && r.echo == t.echo
  {
    if n == 0 then t else ScrollUpAndAdvance(ScrollUpSteps(t, n - 1))
  }

  /** `n` rounds of `scroll_down` each followed by `write_row -= 1`. */
  function ScrollDownSteps(t: WriterState, n: nat): (r: WriterState)
    requires WellFormed(t)
    ensures WellFormed(r)
    ensures r.writeRow == t.writeRow - n
    ensures r.column == t.column && r.color == t.color && r.echo == t.echo
  {
    if n == 0 then t else ScrollDownAndRetract(ScrollDownSteps(t, n - 1))
  }

  /**
   * The first loop of `check_write_row`: a write row of 1 or less is
   * scrolled up, one row at a time, until it is 2.
   */
  function RaiseWriteRow(t: WriterState): (r: WriterState)
    requires WellFormed(t)
    ensures WellFormed(r)
    ensures r.writeRow == Max(t.writeRow, 2)
  {
    if t.writeRow <= 1 then ScrollUpSteps(t, 2 - t.writeRow) else t
  }

  /**
   * The second loop of `check_write_row`: a write row whose `usize` value is
   * 25 or more is scrolled down, one row at a time, until it is 24. After the
   * first loop the row is at least 2, so the cast changes nothing.
   */
  function LowerWriteRow(t: WriterState): (r: WriterState)
    requires WellFormed(t) && 2 <= t.writeRow
    ensures WellFormed(r)
    ensures r.writeRow == Min(t.writeRow, Height - 1)
  {
    if AsUsize(t.writeRow) >= Height then ScrollDownSteps(t, t.writeRow - (Height - 1)) else t
  }

  /**
   * `check_write_row`: the write row always ends in 2..24; the column, the
   * colour and the echo buffer are not touched.
   */
  function CheckWriteRow(t: WriterState): (r: WriterState)
    requires WellFormed(t)
    ensures WellFormed(r)
    ensures 2 <= r.writeRow < Height
    ensures r.column == t.column && r.color == t.color && r.echo == t.echo
  {
    LowerWriteRow(RaiseWriteRow(t))
  }

  /**
   * The clamp scrolls exactly as often as the row was out of range, and in
   * one direction only: up from rows 1 and below (this lemma), down from
   * rows 25 and above (`CheckWriteRowHigh`), not at all from rows 2..24
   * (`CheckWriteRowInRange`).
   */
  lemma CheckWriteRowLow(t: WriterState)
    requires WellFormed(t) && t.writeRow <= 1
    ensures CheckWriteRow(t) == ScrollUpSteps(t, 2 - t.writeRow)
  {
    var raised := RaiseWriteRow(t);
    assert raised == ScrollUpSteps(t, 2 - t.writeRow);
    assert AsUsize(raised.writeRow) == 2;
  }

  lemma CheckWriteRowHigh(t: WriterState, n: nat)
    requires WellFormed(t) && t.writeRow >= Height && n == t.writeRow - (Height - 1)
    ensures CheckWriteRow(t) == ScrollDownSteps(t, n)
  {
    RaiseWriteRowIdle(t);
    LowerWriteRowHigh(t, n);
  }

  lemma CheckWriteRowInRange(t: WriterState)
    requires WellFormed(t) && 2 <= t.writeRow < Height
    ensures CheckWriteRow(t) == t
  {
    RaiseWriteRowIdle(t);
  }

  lemma RaiseWriteRowIdle(t: WriterState)
    requires WellFormed(t) && 2 <= t.writeRow
    ensures RaiseWriteRow(t) == t
  {
  }

  lemma LowerWriteRowHigh(t: WriterState, n: nat)
    requires WellFormed(t) && Height <= t.writeRow && n == t.writeRow - (Height - 1)
    ensures LowerWriteRow(t) == ScrollDownSteps(t, n)
  {
  }

  // ---------------------------------------------------------------------------
  // Writing

  /**
   * `new_line`: the top visible row is pushed onto the down history on every
   * call, the column returns to 0 and the write row advances. A row that
   * lands at or past the bottom (or below zero, through the `usize` cast)
   * shifts the grid up one row, blanks the bottom row and pins the write row
   * to 24.
   */
  function NewLine(t: WriterState): (r: WriterState)
    requires WellFormed(t)
    ensures WellFormed(r)
    ensures r.down == PushLine(t.down, t.rows[0], MaxHistory)
    ensures r.column == 0
    ensures r.writeRow < Height
    ensures IsizeMin <= t.writeRow ==> 0 <= r.writeRow
    ensures 0 <= t.writeRow + 1 < Height ==> r.rows == t.rows && r.writeRow == t.writeRow + 1
    ensures !(0 <= t.writeRow + 1 < Height) && IsizeMin <= t.writeRow ==>
      r.rows == t.rows[1..] + [Blank(t.color)] && r.writeRow == Height - 1
    ensures r.up == t.up && r.echo == t.echo && r.color == t.color && r.rowPosition == t.rowPosition
  {
    var moved := t.(down := PushLine(t.down, t.rows[0], MaxHistory), column := 0, writeRow := t.writeRow + 1);
    if AsUsize(moved.writeRow) >= Height then
      moved.(rows := t.rows[1..] + [Blank(t.color)], writeRow := Height - 1)
    else
      moved
  }

  /** The grid with cell (`row`, `col`) replaced. */
  function SetCell(rows: seq<Row>, row: nat, col: nat, cell: Cell): (r: seq<Row>)
    requires row < |rows| && col < Width
    ensures |r| == |rows|
    ensures forall i, j | 0 <= i < |rows| && 0 <= j < Width ::
      r[i][j] == if i == row && j == col then cell else rows[i][j]
  {
    rows[row := rows[row][col := cell]]
  }

  /**
   * `write_byte`: a newline clamps the write row, starts a new line and is
   * echoed. Any other byte clamps the row, wraps to a new line when the
   * column has reached the right edge, stores its glyph at the write
   * position, advances the column and echoes the glyph.
   */
  function WriteByte(t: WriterState, b: bv8): (r: WriterState)
    requires WellFormed(t)
    ensures WellFormed(r)
    ensures b == Newline ==> r.column == 0 && r.echo == PushByte(t.echo, Newline)
    ensures b != Newline ==> 1 <= r.column <= Width && 2 <= r.writeRow < Height
    ensures b != Newline ==> r.rows[r.writeRow][r.column - 1] == Cell(Glyph(b), t.color)
    ensures b != Newline ==> r.echo == PushByte(t.echo, Glyph(b))
    ensures r.color == t.color
  {
    var clamped := CheckWriteRow(t);
    if b == Newline then
      var started := NewLine(clamped);
      started.(echo := PushByte(started.echo, Newline))
    else
      PutGlyph(WrapColumn(clamped), Glyph(b))
  }

  /** A full row (column 80) moves to a new line before the next glyph. */
  function WrapColumn(t: WriterState): (r: WriterState)
    requires WellFormed(t) && 2 <= t.writeRow < Height
    ensures WellFormed(r)
    ensures 2 <= r.writeRow < Height && r.column < Width
    ensures r.column == if t.column >= Width then 0 else t.column
    ensures r.color == t.color && r.echo == t.echo
  {
    if t.column >= Width then NewLine(t) else t
  }

  /** The tail of the two non-newline arms of `write_byte`: store the glyph, advance, echo it. */
  function PutGlyph(t: WriterState, g: bv8): (r: WriterState)
    requires WellFormed(t) && 0 <= t.writeRow < Height && t.column < Width && EchoByte(g)
    ensures WellFormed(r)
    ensures r.rows[t.writeRow][t.column] == Cell(g, t.color)
    ensures forall i, j | 0 <= i < Height && 0 <= j < Width && (i, j) != (t.writeRow, t.column) ::
      r.rows[i][j] == t.rows[i][j]
    ensures r.column == t.column + 1 && r.writeRow == t.writeRow
    ensures r.echo == PushByte(t.echo, g)
  {
    t.(rows := SetCell(t.rows, t.writeRow, t.column, Cell(g, t.color)),
       column := t.column + 1,
       echo := PushByte(t.echo, g))
  }

  /** Writing a byte and writing its glyph have the same effect: the filter is idempotent. */
  lemma WriteGlyphIsWriteByte(t: WriterState, b: bv8)
    requires WellFormed(t) && b != Newline
    ensures Glyph(Glyph(b)) == Glyph(b)
    ensures WriteByte(t, Glyph(b)) == WriteByte(t, b)
  {
  }

  /** `write_string`: every byte goes through `write_byte`, non-printable ones (other than newline) as the substitute glyph. */
  function WriteString(t: WriterState, s: seq<bv8>): (r: WriterState)
    requires WellFormed(t)
    ensures WellFormed(r)
    ensures r.color == t.color
    decreases |s|
  {
    if s == [] then t else WriteByte(WriteString(t, s[..|s| - 1]), StringByte(s[|s| - 1]))
  }

  /** The raw bytes written one by one through `write_byte`. */
  function WriteBytes(t: WriterState, s: seq<bv8>): (r: WriterState)
    requires WellFormed(t)
    ensures WellFormed(r)
    decreases |s|
  {
    if s == [] then t else WriteByte(WriteBytes(t, s[..|s| - 1]), s[|s| - 1])
  }

  /** The filtering in `write_string` changes nothing: `write_byte` already filters. */
  lemma {:induction false} WriteStringIsWriteBytes(t: WriterState, s: seq<bv8>)
    requires WellFormed(t)
    ensures WriteString(t, s) == WriteBytes(t, s)
    decreases |s|
  {
    if s != [] {
      WriteStringIsWriteBytes(t, s[..|s| - 1]);
      var b := s[|s| - 1];
      if b != Newline {
        WriteGlyphIsWriteByte(WriteBytes(t, s[..|s| - 1]), b);
        assert StringByte(b) == Glyph(b) || StringByte(b) == b;
      }
    }
  }

  /**
   * `backspace`: after the clamp, step back one column, or from column 0 to
   * column 79 of the row above; blank that cell and drop the last echoed
   * byte if there is one. The row stepped back to is never above row 1.
   */
  function Backspace(t: WriterState): (r: WriterState)
    requires WellFormed(t)
    ensures WellFormed(r)
    ensures var c := CheckWriteRow(t);
      && (c.column == 0 ==> r.writeRow == c.writeRow - 1 && r.column == Width - 1)
      && (c.column > 0 ==> r.writeRow == c.writeRow && r.column == c.column - 1)
    ensures 1 <= r.writeRow < Height && r.column < Width
    ensures r.rows[r.writeRow][r.column] == Cell(Space, t.color)
    ensures r.echo == if t.echo == [] then [] else DropLast(t.echo)
    ensures var c := CheckWriteRow(t);
      && r.up == c.up && r.down == c.down && r.rowPosition == c.rowPosition && r.color == t.color
      && forall i, j | 0 <= i < Height && 0 <= j < Width && (i, j) != (r.writeRow, r.column) :: r.rows[i][j] == c.rows[i][j]
  {
    var c := CheckWriteRow(t);
    // The source returns early at column 0 of row 0; after the clamp the row is at least 2.
    var row := if c.column == 0 then c.writeRow - 1 else c.writeRow;
    var col := if c.column == 0 then Width - 1 else c.column - 1;
    c.(writeRow := row, column := col,
       rows := SetCell(c.rows, row, col, Cell(Space, c.color)),
       echo := if c.echo == [] then [] else DropLast(c.echo))
  }

  /**
   * `clear_screen`: after the clamp, every cell is blanked in the current
   * colour, the histories and the echo buffer are emptied, the column and
   * row position go to 0 and the write row to 1.
   */
  function ClearScreen(t: WriterState): (r: WriterState)
    requires WellFormed(t)
    ensures WellFormed(r)
    ensures forall i, j | 0 <= i < Height && 0 <= j < Width :: r.rows[i][j] == Cell(Space, t.color)
    ensures r.up == [] && r.down == [] && r.echo == []
    ensures r.column == 0 && r.rowPosition == 0 && r.writeRow == 1 && r.color == t.color
  {
    var c := CheckWriteRow(t);
    WriterState(seq(Height, _ => Blank(c.color)), 0, 0, c.color, [], [], [], 1)
  }

  /** The state `clear_screen` leaves depends on nothing but the colour. */
  lemma ClearScreenForgets(t: WriterState, u: WriterState)
    requires WellFormed(t) && WellFormed(u) && t.color == u.color
    ensures ClearScreen(t) == ClearScreen(u)
  {
    var a, b := ClearScreen(t), ClearScreen(u);
    assert forall i | 0 <= i < Height :: a.rows[i] == b.rows[i];
  }

  /**
   * `print_colored`: switch colour, write, switch back to white on black.
   * Only the cells written in between carry the chosen colour.
   */
  function PrintColored(t: WriterState, s: seq<bv8>, foreground: Color, background: Color): (r: WriterState)
    requires WellFormed(t)
    ensures WellFormed(r)
    ensures r.color == DefaultColor()
  {
    WriteString(t.(color := ColorCodeOf(foreground, background)), s).(color := DefaultColor())
  }
}
