/**
 * The terminal engine of src/vga_buffer.rs as it runs: a `Writer` object
 * owning the 25x80 cell grid (the memory-mapped VGA buffer), the cursor, an
 * `InputBuffer` and two `RowHistory` objects, all updated in place.
 *
 * Each `Writer` method is proved to leave the abstract state `View()` equal
 * to the corresponding function of module Terminal applied to the old state.
 */
module VgaBuffer {
  import opened Wrappers
  import opened Terminal
  import Utf8

  /** `InputBuffer`: a fixed 100-byte array and a fill length. */
  class InputBuffer {
    const buf: array<bv8>
    var len: nat
    /** The stored bytes, `buf[..len]`, kept as a ghost value. */
    ghost var contents: seq<bv8>

    ghost predicate Valid()
      reads this, buf
    {
      buf.Length == InputBufferSize && len <= InputBufferSize && contents == buf[..len]
    }

    constructor ()
      ensures Valid() && fresh(buf) && contents == []
    {
      buf := new bv8[InputBufferSize];
      len := 0;
      contents := [];
    }

    /** `push_byte`: the byte is kept only while fewer than 100 are stored. */
    method PushByte(b: bv8)
      requires Valid()
      modifies this, buf
      ensures Valid()
      ensures contents == Terminal.PushByte(old(contents), b)
    {
      if len < InputBufferSize {
        buf[len] := b;
        len := len + 1;
        contents := contents + [b];
      }
    }

    /** `clear`: forget the contents; the array itself is left as it is. */
    method Clear()
      requires Valid()
      modifies this
      ensures Valid() && contents == []
    {
      len := 0;
      contents := [];
    }

    /** `as_str`: the contents when they are valid UTF-8, the empty string otherwise. */
    function AsStr(): (s: seq<bv8>)
      reads this, buf
      requires Valid()
      ensures Utf8.IsValid(contents) ==> s == contents
      ensures !Utf8.IsValid(contents) ==> s == []
    {
      if Utf8.IsValid(buf[..len]) then buf[..len] else []
    }
  }

  /**
   * `UpBuffer` and `DownBuffer`, which the source defines twice with the same
   * code: a vector of rows that evicts its oldest row when it holds
   * `maxLines` of them.
   */
  class RowHistory {
    var lines: seq<Row>
    const maxLines: nat

    ghost predicate Valid()
      reads this
    {
      |lines| <= maxLines
    }

    constructor (maxHistory: nat)
      ensures Valid() && lines == [] && maxLines == maxHistory
    {
      lines := [];
      maxLines := maxHistory;
    }

    /** `push_line`; with `maxLines == 0` the source's `remove(0)` would panic on the empty vector. */
    method PushLine(line: Row)
      requires maxLines > 0
      modifies this
      ensures lines == Terminal.PushLine(old(lines), line, maxLines)
    {
      if |lines| >= maxLines {
        lines := lines[1..];
      }
      lines := lines + [line];
    }

    /** `pop_line`: the most recently pushed row, if any. */
    method PopLine() returns (line: Option<Row>)
      modifies this
      ensures old(lines) == [] ==> line == None && lines == []
      ensures old(lines) != [] ==> line == Some(Last(old(lines))) && lines == DropLast(old(lines))
    {
      if lines == [] {
        line := None;
      } else {
        line := Some(lines[|lines| - 1]);
        lines := lines[..|lines| - 1];
      }
    }

    predicate IsEmpty()
      reads this
    {
      lines == []
    }

    method Clear()
      modifies this
      ensures lines == []
    {
      lines := [];
    }
  }

  class Writer {
    var column: nat
    var rowPosition: nat
    var color: bv8
    /** The memory-mapped text buffer at 0xb8000, row-major. */
    const grid: array2<Cell>
    /** `buffer_string`: what has been typed on the current line. */
    const echo: InputBuffer
    const up: RowHistory
    const down: RowHistory
    /** The logical write row, an `isize` that mouse scrolling can push out of 0..24. */
    var writeRow: int

    /** Every object a `Writer` operation may change. */
    function Repr(): set<object>
    {
      {this, grid, echo, echo.buf, up, down}
    }

    /**
     * What the grid shows, row by row: a ghost copy that every grid write
     * keeps in step with the array (see `Coupled`).
     */
    ghost var rows: seq<Row>

    ghost predicate Shape()
      reads this, echo, up, down
    {
      && grid.Length0 == Height && grid.Length1 == Width
      && |rows| == Height
      && |echo.contents| <= InputBufferSize
      && up != down
      && up.maxLines == MaxHistory && down.maxLines == MaxHistory
    }

    /** The ghost rows are exactly the cells of the grid. */
    ghost predicate Coupled()
      reads this`rows, grid
    {
      && grid.Length0 == Height && grid.Length1 == Width
      && |rows| == Height
      && forall r, c | 0 <= r < Height && 0 <= c < Width :: grid[r, c] == rows[r][c]
    }

    /** Row `r` of the grid as a value. */
    function RowAt(r: nat): Row
      reads grid
      requires grid.Length0 == Height && grid.Length1 == Width && r < Height
    {
      seq(Width, c requires 0 <= c < Width reads grid => grid[r, c])
    }

    lemma RowAtIsRow(r: nat)
      requires Coupled() && r < Height
      ensures RowAt(r) == rows[r]
    {
      assert forall c | 0 <= c < Width :: RowAt(r)[c] == rows[r][c];
    }

    ghost function View(): WriterState
      reads this, echo, up, down
      requires Shape()
    {
      WriterState(rows, column, rowPosition, color, echo.contents, up.lines, down.lines, writeRow)
    }

    ghost predicate Valid()
      reads this, grid, echo, echo.buf, up, down
    {
      Shape() && Coupled() && echo.Valid() && WellFormed(View())
    }

    /** `Writer::new` over the given text buffer, whose cells are left as they are. */
    constructor (screen: array2<Cell>)
      requires screen.Length0 == Height && screen.Length1 == Width
      ensures Valid() && grid == screen
      ensures View() == WriterState(rows, 0, 0, DefaultColor(), [], [], [], 0)
      ensures fresh(echo) && fresh(echo.buf) && fresh(up) && fresh(down)
    {
      column := 0;
      rowPosition := 0;
      color := DefaultColor();
      grid := screen;
      echo := new InputBuffer();
      up := new RowHistory(MaxHistory);
      down := new RowHistory(MaxHistory);
      writeRow := 0;
      new;
      rows := seq(Height, r requires 0 <= r < Height reads screen => RowAt(r));
    }

    method SetColor(foreground: Color, background: Color)
      requires Valid()
      modifies this
      ensures Valid()
      ensures View() == old(View()).(color := ColorCodeOf(foreground, background))
    {
      color := ColorCodeOf(foreground, background);
    }

    method PlusWriteRow()
      requires Valid()
      modifies this
      ensures Valid()
      ensures View() == old(View()).(writeRow := old(writeRow) + 1)
    {
      writeRow := writeRow + 1;
    }

    method MinusWriteRow()
      requires Valid()
      modifies this
      ensures Valid()
      ensures View() == old(View()).(writeRow := old(writeRow) - 1)
    {
      writeRow := writeRow - 1;
    }

    // -------------------------------------------------------------------------
    // Grid primitives

    /** `clear_row`: blank every cell of one row in the current colour. */
    method ClearRow(row: nat)
      requires Coupled() && row < Height
      modifies this`rows, grid
      ensures Coupled() && rows == old(rows)[row := Blank(color)]
    {
      ghost var before := rows;
      for col := 0 to Width
        invariant forall r, c | 0 <= r < Height && 0 <= c < Width ::
          grid[r, c] == if r == row && c < col then Cell(Space, color) else before[r][c]
      {
        grid[row, col] := Cell(Space, color);
      }
      rows := before[row := Blank(color)];
    }

    /** `self.buffer.chars[row] = line`: a whole row assigned at once. */
    method SetRow(row: nat, line: Row)
      requires Coupled() && row < Height
      modifies this`rows, grid
      ensures Coupled() && rows == old(rows)[row := line]
    {
      ghost var before := rows;
      for col := 0 to Width
        invariant forall r, c | 0 <= r < Height && 0 <= c < Width ::
          grid[r, c] == if r == row && c < col then line[c] else before[r][c]
      {
        grid[row, col] := line[col];
      }
      rows := before[row := line];
    }

    /** One cell written. */
    method WriteCell(row: nat, col: nat, cell: Cell)
      requires Coupled() && row < Height && col < Width
      modifies this`rows, grid
      ensures Coupled() && rows == SetCell(old(rows), row, col, cell)
    {
      grid[row, col] := cell;
      rows := SetCell(rows, row, col, cell);
    }

    /** The copy loop of `scroll_up`: rows 23 down to 0 each copied one row lower. */
    method ShiftRowsDown()
      requires Coupled()
      modifies this`rows, grid
      ensures Coupled() && rows == [old(rows)[0]] + old(rows)[..Height - 1]
    {
      ghost var before := rows;
      for row := Height - 1 downto 0
        invariant forall r, c | 0 <= r < Height && 0 <= c < Width ::
          grid[r, c] == if r > row then before[r - 1][c] else before[r][c]
      {
        for col := 0 to Width
          invariant forall r, c | 0 <= r < Height && 0 <= c < Width ::
            grid[r, c] == if r > row + 1 || (r == row + 1 && c < col) then before[r - 1][c] else before[r][c]
        {
          grid[row + 1, col] := grid[row, col];
        }
      }
      rows := [before[0]] + before[..Height - 1];
    }

    /** The copy loop of `scroll_down` and `new_line`: rows 1 up to 24 each copied one row higher. */
    method ShiftRowsUp()
      requires Coupled()
      modifies this`rows, grid
      ensures Coupled() && rows == old(rows)[1..] + [old(rows)[Height - 1]]
    {
      ghost var before := rows;
      for row := 1 to Height
        invariant forall r, c | 0 <= r < Height && 0 <= c < Width ::
          grid[r, c] == if r < row - 1 then before[r + 1][c] else before[r][c]
      {
        for col := 0 to Width
          invariant forall r, c | 0 <= r < Height && 0 <= c < Width ::
            grid[r, c] == if r < row - 1 || (r == row - 1 && c < col) then before[r + 1][c] else before[r][c]
        {
          grid[row - 1, col] := grid[row, col];
        }
      }
      rows := before[1..] + [before[Height - 1]];
    }

    // -------------------------------------------------------------------------
    // Scrolling

    method ScrollUp()
      requires Valid()
      modifies this, grid, up, down
      ensures Valid()
      ensures View() == Terminal.ScrollUp(old(View()))
    {
      SaveAndShiftDown();
      rowPosition := if rowPosition < Height - 1 then rowPosition + 1 else rowPosition;
      var line := down.PopLine();
      match line
      case Some(l) => SetRow(0, l);
      case None => ClearRow(0);
    }

    /** The first half of `scroll_up`: save the bottom row, move the rows down, blank row 0. */
    method SaveAndShiftDown()
      requires Valid()
      modifies this`rows, grid, up
      ensures Valid()
      ensures View() == old(View()).(
        rows := ([old(rows)[0]] + old(rows)[..Height - 1])[0 := Blank(color)],
        up := PushLine(old(up.lines), old(rows)[Height - 1], MaxHistory))
    {
      RowAtIsRow(Height - 1);
      up.PushLine(RowAt(Height - 1));
      ShiftRowsDown();
      ClearRow(0);
    }

    /** The first half of `scroll_down`: save the top row, move the rows up, blank row 24. */
    method SaveAndShiftUp()
      requires Valid()
      modifies this`rows, grid, down
      ensures Valid()
      ensures View() == old(View()).(
        rows := (old(rows)[1..] + [old(rows)[Height - 1]])[Height - 1 := Blank(color)],
        down := PushLine(old(down.lines), old(rows)[0], MaxHistory))
    {
      RowAtIsRow(0);
      down.PushLine(RowAt(0));
      ShiftRowsUp();
      ClearRow(Height - 1);
    }

    method ScrollDown()
      requires Valid()
      modifies this, grid, up, down
      ensures Valid()
      ensures View() == Terminal.ScrollDown(old(View()))
    {
      SaveAndShiftUp();
      rowPosition := Height - 1;
      var line := up.PopLine();
      match line
      case Some(l) => SetRow(Height - 1, l);
      case None => ClearRow(Height - 1);
    }

    /** `scroll_up` followed by `write_row += 1`, as the clamp and the mouse wheel do it. */
    method ScrollUpAndAdvance()
      requires Valid()
      modifies this, grid, up, down
      ensures Valid()
      ensures View() == Terminal.ScrollUpAndAdvance(old(View()))
    {
      ScrollUp();
      writeRow := writeRow + 1;
    }

    /** `scroll_down` followed by `write_row -= 1`. */
    method ScrollDownAndRetract()
      requires Valid()
      modifies this, grid, up, down
      ensures Valid()
      ensures View() == Terminal.ScrollDownAndRetract(old(View()))
    {
      ScrollDown();
      writeRow := writeRow - 1;
    }

    /**
     * `check_write_row`, with both loops as the source has them: the guard
     * `write_row as usize == usize::MAX` only adds the row -1, which
     * `write_row <= 1` already covers.
     */
    method CheckWriteRow()
      requires Valid()
      modifies this, grid, up, down
      ensures Valid()
      ensures View() == Terminal.CheckWriteRow(old(View()))
    {
      RaiseWriteRow();
      LowerWriteRow();
    }

    /** The first half of `check_write_row`. */
    method RaiseWriteRow()
      requires Valid()
      modifies this, grid, up, down
      ensures Valid() && View() == Terminal.RaiseWriteRow(old(View()))
    {
      ghost var t := View();
      if writeRow <= 1 || AsUsize(writeRow) == UsizeMax {
        ghost var k := ScrollUpWhileLow();
        assert k == if t.writeRow <= 1 then 2 - t.writeRow else 0;
      }
    }

    /** The loop `while write_row <= 1 { scroll_up(); write_row += 1; }`. */
    method ScrollUpWhileLow() returns (ghost k: nat)
      requires Valid()
      modifies this, grid, up, down
      ensures Valid()
      ensures View() == ScrollUpSteps(old(View()), k)
      ensures 2 <= writeRow <= Max(old(writeRow), 2)
    {
      ghost var t := View();
      k := 0;
      while writeRow <= 1
        invariant Valid()
        invariant View() == ScrollUpSteps(t, k)
        invariant writeRow <= Max(t.writeRow, 2)
        decreases 2 - writeRow
      {
        ScrollUpAndAdvance();
        k := k + 1;
      }
    }

    /** The second half of `check_write_row`. */
    method LowerWriteRow()
      requires Valid() && 2 <= writeRow
      modifies this, grid, up, down
      ensures Valid() && View() == Terminal.LowerWriteRow(old(View()))
    {
      ghost var t := View();
      if AsUsize(writeRow) >= Height {
        ghost var k := ScrollDownWhileHigh();
        assert k == t.writeRow - (Height - 1);
      }
    }

    /** The loop `while write_row as usize >= 25 { scroll_down(); write_row -= 1; }`. */
    method ScrollDownWhileHigh() returns (ghost k: nat)
      requires Valid() && 2 <= writeRow
      modifies this, grid, up, down
      ensures Valid()
      ensures View() == ScrollDownSteps(old(View()), k)
      ensures Min(old(writeRow), Height - 1) <= writeRow < Height
    {
      ghost var t := View();
      k := 0;
      while AsUsize(writeRow) >= Height
        invariant Valid()
        invariant View() == ScrollDownSteps(t, k)
        invariant Min(t.writeRow, Height - 1) <= writeRow
        decreases writeRow
      {
        ScrollDownAndRetract();
        k := k + 1;
      }
    }

    // -------------------------------------------------------------------------
    // Writing

    method NewLine()
      requires Valid()
      modifies this, grid, down
      ensures Valid()
      ensures View() == Terminal.NewLine(old(View()))
    {
      ghost var t := View();
      RowAtIsRow(0);
      down.PushLine(RowAt(0));
      column := 0;
      writeRow := writeRow + 1;
      if AsUsize(writeRow) >= Height {
        ShiftRowsUp();
        ClearRow(Height - 1);
        writeRow := Height - 1;
        assert rows == t.rows[1..] + [Blank(t.color)];
      }
    }

    method WriteByte(b: bv8)
      requires Valid()
      modifies Repr()
      ensures Valid()
      ensures View() == Terminal.WriteByte(old(View()), b)
    {
      if b == Newline {
        CheckWriteRow();
        NewLine();
        echo.PushByte(Newline);
      } else if Printable(b) {
        CheckWriteRow();
        WrapColumn();
        PutGlyph(b);
      } else {
        CheckWriteRow();
        WrapColumn();
        PutGlyph(Substitute);
      }
    }

    /** `if column_position >= BUFFER_WIDTH { new_line() }` in both non-newline arms of `write_byte`. */
    method WrapColumn()
      requires Valid() && 2 <= writeRow < Height
      modifies this, grid, down
      ensures Valid() && View() == Terminal.WrapColumn(old(View()))
    {
      if column >= Width {
        NewLine();
      }
    }

    /** The tail shared by both non-newline arms of `write_byte`: store, advance, echo. */
    method PutGlyph(g: bv8)
      requires Valid() && 0 <= writeRow < Height && column < Width && EchoByte(g)
      modifies this, grid, echo, echo.buf
      ensures Valid() && View() == Terminal.PutGlyph(old(View()), g)
    {
      var row := AsUsize(writeRow);
      var col := column;
      WriteCell(row, col, Cell(g, color));
      column := column + 1;
      echo.PushByte(g);
    }

    /** `write_string`: each byte through `write_byte`, non-printable ones other than newline as 0xfe. */
    method WriteString(s: seq<bv8>)
      requires Valid()
      modifies Repr()
      ensures Valid()
      ensures View() == Terminal.WriteString(old(View()), s)
    {
      for i := 0 to |s|
        invariant Valid()
        invariant View() == Terminal.WriteString(old(View()), s[..i])
      {
        var b := s[i];
        WriteByte(if Printable(b) || b == Newline then b else Substitute);
        assert s[..i + 1][..i] == s[..i];
      }
      assert s[..|s|] == s;
    }

    method ClearScreen()
      requires Valid()
      modifies Repr()
      ensures Valid()
      ensures View() == Terminal.ClearScreen(old(View()))
    {
      CheckWriteRow();
      ClearAllRows();
      var k := color;
      assert rows == seq(Height, _ => Blank(k));
      column := 0;
      rowPosition := 0;
      echo.Clear();
      up.Clear();
      down.Clear();
      writeRow := 1;
    }

    method Backspace()
      requires Valid()
      modifies this, grid, echo, up, down
      ensures Valid()
      ensures View() == Terminal.Backspace(old(View()))
    {
      CheckWriteRow();
      if column == 0 && writeRow == 0 {
        return;
      }
      EraseBefore();
    }

    /** The row loop of `clear_screen`: every row blanked in the current colour. */
    method ClearAllRows()
      requires Coupled()
      modifies this`rows, grid
      ensures Coupled() && |rows| == Height
      ensures forall r | 0 <= r < Height :: rows[r] == Blank(color)
    {
      for row := 0 to Height
        invariant Coupled()
        invariant forall r | 0 <= r < row :: rows[r] == Blank(color)
      {
        ClearRow(row);
      }
    }

    /** The part of `backspace` after the clamp: step back one cell, blank it, drop the last echoed byte. */
    method EraseBefore()
      requires Valid() && 2 <= writeRow < Height
      modifies this, grid, echo
      ensures Valid()
      ensures var row := if old(column) == 0 then old(writeRow) - 1 else old(writeRow);
        var col := if old(column) == 0 then Width - 1 else old(column) - 1;
        View() == old(View()).(writeRow := row, column := col,
          rows := SetCell(old(rows), row, col, Cell(Space, color)),
          echo := if old(echo.contents) == [] then [] else DropLast(old(echo.contents)))
    {
      if column == 0 {
        writeRow := writeRow - 1;
        column := Width - 1;
      } else {
        column := column - 1;
      }
      WriteCell(AsUsize(writeRow), column, Cell(Space, color));
      if echo.len > 0 {
        echo.len := echo.len - 1;
        echo.contents := DropLast(echo.contents);
      }
    }

    /** `get_buffer`: the echoed line, or the empty string when it holds a 0xfe glyph. */
    function GetBuffer(): (s: seq<bv8>)
      reads this, grid, echo, echo.buf, up, down
      requires Valid()
      ensures Substitute !in echo.contents ==> s == echo.contents
      ensures Substitute in echo.contents ==> s == []
    {
      Utf8.AsciiOrFeValidity(echo.contents);
      echo.AsStr()
    }

    /** `buffer_copy`: as much of the echoed line as fits into `dest`. */
    method BufferCopy(dest: array<bv8>) returns (n: nat)
      requires Valid() && dest != echo.buf
      modifies dest
      ensures n == Min(dest.Length, |GetBuffer()|)
      ensures dest[..n] == GetBuffer()[..n]
      ensures dest[n..] == old(dest[n..])
    {
      var text := GetBuffer();
      n := Min(dest.Length, |text|);
      forall i | 0 <= i < n {
        dest[i] := text[i];
      }
    }

    /** `buffer_clear`: empties the echo buffer and nothing else. */
    method BufferClear()
      requires Valid()
      modifies echo
      ensures Valid()
      ensures View() == old(View()).(echo := [])
    {
      echo.Clear();
    }

    /** `print_colored`: the colour is restored to white on black after the write. */
    method PrintColored(s: seq<bv8>, foreground: Color, background: Color)
      requires Valid()
      modifies Repr()
      ensures Valid()
      ensures View() == Terminal.PrintColored(old(View()), s, foreground, background)
    {
      SetColor(foreground, background);
      WriteString(s);
      SetColor(White, Black);
    }
  }
}
