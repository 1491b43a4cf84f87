/** The screen buffer of kernel/yanix/tty/tty_dev.c, refined against `Scrollback`: the
    buffer is the window of the last `rows` lines of the paper. */
module Tty {
  import opened Scrollback

  const CELL: nat := 2  // a character byte and a colour byte

  /** The cell at a place on the screen. */
  function CellAt(buf: seq<Byte>, cols: nat, row: nat, col: nat): Cell {
    var l := CELL * Position(cols, row, col);
    if l + 1 < |buf| then Cell(buf[l], buf[l + 1]) else BLANK
  }

  function PutAt(buf: seq<Byte>, l: nat, x: Cell): seq<Byte>
    requires l + 1 < |buf|
  {
    buf[l := x.ch][l + 1 := x.color]
  }

  function Zeros(n: nat): seq<Byte> { seq(n, _ => 0) }

  /** `buf` shows the lines of the paper from `top` on, and nothing is written below. */
  ghost predicate Shows(buf: seq<Byte>, cols: nat, rows: nat, ink: Ink, top: nat) {
    && |buf| == CELL * (rows * cols)
    && (forall r: nat, c: nat | r < rows && c < cols :: CellAt(buf, cols, r, c) == At(ink, top + r, c))
    && (forall r: nat, c: nat | r >= top + rows && c < cols :: At(ink, r, c) == BLANK)
  }

  lemma PositionInside(cols: nat, rows: nat, row: nat, col: nat)
    requires row < rows && col < cols
    ensures CELL * Position(cols, row, col) + 1 < CELL * (rows * cols)
  {
    RowsApart(cols, row, rows);
  }

  /** Every buffer index that a place on the screen is turned into lies in the buffer, and
      different places do not share bytes. */
  lemma PutShows(buf: seq<Byte>, cols: nat, rows: nat, ink: Ink, top: nat, row: nat, col: nat, x: Cell)
    requires Shows(buf, cols, rows, ink, top) && row < rows && col < cols
    ensures CELL * Position(cols, row, col) + 1 < |buf|
    ensures Shows(PutAt(buf, CELL * Position(cols, row, col), x), cols, rows, ink[(top + row, col) := x], top)
  {
    PositionInside(cols, rows, row, col);
    var buf' := PutAt(buf, CELL * Position(cols, row, col), x);
    var ink' := ink[(top + row, col) := x];
    forall r: nat, c: nat | r < rows && c < cols ensures CellAt(buf', cols, r, c) == At(ink', top + r, c) {
      PositionInside(cols, rows, r, c);
      PositionUnique(cols, r, c, row, col);
      assert CellAt(buf, cols, r, c) == At(ink, top + r, c);
    }
    forall r: nat, c: nat | r >= top + rows && c < cols ensures At(ink', r, c) == BLANK {
      assert At(ink, r, c) == BLANK;
    }
  }

  /** Dropping the first line and adding an empty one moves the window down by a line. */
  lemma ScrollShows(buf: seq<Byte>, cols: nat, rows: nat, ink: Ink, top: nat)
    requires Shows(buf, cols, rows, ink, top) && rows > 0
    ensures CELL * cols <= |buf|
    ensures Shows(buf[CELL * cols..] + Zeros(CELL * cols), cols, rows, ink, top + 1)
  {
    RowsApart(cols, 0, rows);
    var buf' := buf[CELL * cols..] + Zeros(CELL * cols);
    forall r: nat, c: nat | r < rows && c < cols ensures CellAt(buf', cols, r, c) == At(ink, top + 1 + r, c) {
      ScrolledCell(buf, cols, rows, r, c);
      if r + 1 < rows { assert CellAt(buf, cols, r + 1, c) == At(ink, top + (r + 1), c); }
    }
  }

  lemma ScrolledCell(buf: seq<Byte>, cols: nat, rows: nat, r: nat, c: nat)
    requires |buf| == CELL * (rows * cols) && r < rows && c < cols && CELL * cols <= |buf|
    ensures CellAt(buf[CELL * cols..] + Zeros(CELL * cols), cols, r, c) ==
            if r + 1 < rows then CellAt(buf, cols, r + 1, c) else BLANK
  {
    PositionInside(cols, rows, r, c);
    assert Position(cols, r + 1, c) == Position(cols, r, c) + cols;
    if r + 1 < rows {
      PositionInside(cols, rows, r + 1, c);
    } else {
      assert (r + 1) * cols == rows * cols;
    }
  }

  /** A screen of equal cells shows a sheet that has these cells and nothing else. */
  lemma SheetShows(buf: seq<Byte>, cols: nat, rows: nat, ink: Ink, top: nat, sheet: Ink, x: Cell)
    requires Shows(buf, cols, rows, ink, top)
    requires forall r: nat, c: nat | top <= r < top + rows && c < cols :: At(ink, r, c) == x
    requires forall r: nat, c: nat :: At(sheet, r, c) == if r < rows && c < cols then x else BLANK
    ensures Shows(buf, cols, rows, sheet, 0)
  {
    forall r: nat, c: nat | r < rows && c < cols ensures CellAt(buf, cols, r, c) == At(sheet, 0 + r, c) {
      assert CellAt(buf, cols, r, c) == At(ink, top + r, c);
    }
  }

  /** The size of `k` rows, added up. */
  ghost function RowsSize(k: nat, rowsize: nat): nat {
    if k == 0 then 0 else rowsize + RowsSize(k - 1, rowsize)
  }

  lemma {:induction false} RowsSizeIs(k: nat, rowsize: nat)
    ensures RowsSize(k, rowsize) == k * rowsize
  {
    if k > 0 {
      RowsSizeIs(k - 1, rowsize);
      assert k * rowsize == (k - 1) * rowsize + rowsize;
    }
  }

  lemma BufferSize(cols: nat, rows: nat)
    requires rows > 0
    ensures CELL * (rows * cols) == CELL * cols + RowsSize(rows - 1, CELL * cols)
  {
    RowsSizeIs(rows, CELL * cols);
    assert CELL * (rows * cols) == rows * (CELL * cols);
  }

  lemma ScrolledBuffer(old_: seq<Byte>, new_: seq<Byte>, n: nat)
    requires |old_| == |new_| && n <= |old_|
    requires forall k | 0 <= k < |old_| - n :: new_[k] == old_[k + n]
    requires forall k | |old_| - n <= k < |old_| :: new_[k] == 0
    ensures new_ == old_[n..] + Zeros(n)
  {
  }

  lemma AtPut(ink: Ink, a: nat, b: nat, x: Cell)
    ensures forall r: nat, c: nat ::
              At(ink[(a, b) := x], r, c) == if r == a && c == b then x else At(ink, r, c)
  {
    var ink' := ink[(a, b) := x];
    forall r: nat, c: nat ensures At(ink', r, c) == if r == a && c == b then x else At(ink, r, c) {
      assert (r, c) == (a, b) <==> r == a && c == b;
    }
  }

  class Tty {
    const cols: nat      // tty_control_struct->col_max
    const rows: nat      // tty_control_struct->row_max
    const buffer: array<Byte>
    var color: Byte
    var cCol: nat
    var cRow: nat
    var disabled: bool
    ghost var ink: Ink   // everything written so far
    ghost var top: nat   // the lines that have scrolled away

    ghost predicate Valid()
      reads this, buffer
    {
      cCol < cols && cRow < rows && Shows(buffer[..], cols, rows, ink, top)
    }

    /** A device over a buffer that is all zero. */
    constructor (cols: nat, rows: nat, color: Byte)
      requires cols > 0 && rows > 0
      ensures Valid() && fresh(buffer) && ink == map[] && top == 0 && cCol == 0 && cRow == 0 && !disabled
      ensures this.cols == cols && this.rows == rows && this.color == color
    {
      this.cols, this.rows, this.color := cols, rows, color;
      cCol, cRow, disabled := 0, 0, false;
      ink, top := map[], 0;
      var n := CELL * (rows * cols);
      buffer := new Byte[n](_ => 0);
    }

    /** _tty_scroll: every row is copied onto the one above it, and the last row cleared. */
    method Scroll()
      requires rows > 0 && buffer.Length == CELL * (rows * cols)
      modifies buffer
      ensures CELL * cols <= buffer.Length
      ensures buffer[..] == old(buffer[..])[CELL * cols..] + Zeros(CELL * cols)
    {
      var rowsize := CELL * cols;
      BufferSize(cols, rows);
      var i: nat, line1: nat := 1, 0;
      while i < rows
        invariant 1 <= i <= rows
        invariant line1 + rowsize + RowsSize(rows - i, rowsize) == buffer.Length
        invariant forall k | 0 <= k < line1 :: buffer[k] == old(buffer[k + rowsize])
        invariant forall k | line1 <= k < buffer.Length :: buffer[k] == old(buffer[k])
      {
        CopyRow(line1, line1 + rowsize, rowsize);
        i, line1 := i + 1, line1 + rowsize;
      }
      ClearRow(line1, rowsize);
      ScrolledBuffer(old(buffer[..]), buffer[..], rowsize);
    }

    /** memcpy of one row onto the one above it. */
    method CopyRow(dst: nat, src: nat, n: nat)
      requires dst + n == src && src + n <= buffer.Length
      modifies buffer
      ensures forall k | 0 <= k < buffer.Length ::
                buffer[k] == if dst <= k < dst + n then old(buffer[k + n]) else old(buffer[k])
    {
      var j := 0;
      while j < n
        invariant 0 <= j <= n
        invariant forall k | 0 <= k < buffer.Length ::
                    buffer[k] == if dst <= k < dst + j then old(buffer[k + n]) else old(buffer[k])
      {
        buffer[dst + j] := buffer[src + j];
        j := j + 1;
      }
    }

    /** memset of one row to zero. */
    method ClearRow(dst: nat, n: nat)
      requires dst + n <= buffer.Length
      modifies buffer
      ensures forall k | 0 <= k < buffer.Length :: buffer[k] == if dst <= k < dst + n then 0 else old(buffer[k])
    {
      var j := 0;
      while j < n
        invariant 0 <= j <= n
        invariant forall k | 0 <= k < buffer.Length ::
                    buffer[k] == if dst <= k < dst + j then 0 else old(buffer[k])
      {
        buffer[dst + j] := 0;
        j := j + 1;
      }
    }

    /** A character and its colour written at a place on the screen. */
    method Put(col: nat, row: nat, ch: Byte)
      requires Shows(buffer[..], cols, rows, ink, top) && col < cols && row < rows
      modifies buffer, this`ink
      ensures ink == old(ink)[(top + row, col) := Cell(ch, color)]
      ensures Shows(buffer[..], cols, rows, ink, top)
    {
      PutShows(buffer[..], cols, rows, ink, top, row, col, Cell(ch, color));
      var l := (row * cols + col) * CELL;
      buffer[l] := ch;
      buffer[l + 1] := color;
      ink := ink[(top + row, col) := Cell(ch, color)];
      assert buffer[..] == PutAt(old(buffer[..]), l, Cell(ch, color));
    }

    /** tty_clear_cell: a space that keeps the colour of the cell. */
    method ClearCell(col: nat, row: nat)
      requires Shows(buffer[..], cols, rows, ink, top) && col < cols && row < rows
      modifies buffer, this`ink
      ensures ink == old(ink)[(top + row, col) := At(old(ink), top + row, col).(ch := SPACE)]
      ensures Shows(buffer[..], cols, rows, ink, top)
    {
      ghost var x := At(ink, top + row, col);
      assert CellAt(buffer[..], cols, row, col) == x;
      PutShows(buffer[..], cols, rows, ink, top, row, col, x.(ch := SPACE));
      var l := (row * cols + col) * 2;
      buffer[l] := SPACE;
      ink := ink[(top + row, col) := x.(ch := SPACE)];
      assert buffer[..] == PutAt(old(buffer[..]), l, x.(ch := SPACE));
    }

    /** _tty_scroll, with its effect on what is shown. */
    method ScrollWindow()
      requires Shows(buffer[..], cols, rows, ink, top) && rows > 0
      modifies buffer, this`top
      ensures Shows(buffer[..], cols, rows, ink, top) && top == old(top) + 1
    {
      ScrollShows(buffer[..], cols, rows, ink, top);
      Scroll();
      top := top + 1;
    }

    /** What one byte does to the buffer and the cursor. */
    method StrikeByte(b: Byte, col: nat, row: nat) returns (curCol: nat, curRow: nat)
      requires Shows(buffer[..], cols, rows, ink, top) && col < cols && row < rows && b != ESCAPE
      modifies buffer, this`ink
      ensures Shows(buffer[..], cols, rows, ink, top)
      ensures Paper(ink, top + curRow, curCol) == Strike(color, Paper(old(ink), top + row, col), b)
    {
      curCol, curRow := col, row;
      if b == NEWLINE || b == RETURN {
        curCol := 0;
        curRow := curRow + 1;
      } else if b == TAB {
        curCol := curCol + 4;
      } else if b == BACKSPACE {
        if curCol != 0 {
          ClearCell(curCol - 1, curRow);
          curCol := curCol - 1;
        }
      } else {
        Put(curCol, curRow, b);
        curCol := curCol + 1;
      }
    }

    /** One round of the loop of tty_write: the byte, the right margin, and the bottom of
        the screen. */
    method WriteByte(b: Byte, col: nat, row: nat) returns (curCol: nat, curRow: nat)
      requires Shows(buffer[..], cols, rows, ink, top) && col < cols && row < rows && b != ESCAPE
      modifies buffer, this`ink, this`top
      ensures Shows(buffer[..], cols, rows, ink, top) && curCol < cols && curRow < rows
      ensures Paper(ink, top + curRow, curCol) == Feed(cols, color, Paper(old(ink), old(top) + row, col), b)
      ensures top == TopFor(old(top), rows, top + curRow)
    {
      ghost var start := Paper(ink, top + row, col);
      curCol, curRow := StrikeByte(b, col, row);
      FeedBounds(cols, color, start, b, 0, 0);

      if curCol >= cols {
        curCol := 0;
        curRow := curRow + 1;
      }

      if curRow >= rows {
        ScrollWindow();
        curCol := 0;
        curRow := curRow - 1;
      }
    }

    /** The loop of tty_write. */
    method WriteFrom(text: seq<Byte>, col: nat, row: nat) returns (curCol: nat, curRow: nat)
      requires Shows(buffer[..], cols, rows, ink, top) && col < cols && row < rows && Plain(text)
      modifies buffer, this`ink, this`top
      ensures Shows(buffer[..], cols, rows, ink, top) && curCol < cols && curRow < rows
      ensures Paper(ink, top + curRow, curCol) == FeedAll(cols, color, Paper(old(ink), old(top) + row, col), text)
      ensures top == TopFor(old(top), rows, top + curRow)
    {
      ghost var start := Paper(ink, top + row, col);
      curCol, curRow := col, row;
      var i := 0;
      while i < |text|
        invariant 0 <= i <= |text|
        invariant curCol < cols && curRow < rows && Shows(buffer[..], cols, rows, ink, top)
        invariant Paper(ink, top + curRow, curCol) == FeedAll(cols, color, start, text[..i])
        invariant top == TopFor(old(top), rows, top + curRow)
      {
        curCol, curRow := WriteByte(text[i], curCol, curRow);
        assert text[..i + 1][..i] == text[..i];
        i := i + 1;
      }
      assert text[..|text|] == text;
    }

    /** tty_write at the cursor (a column or row of -1), or at a place on the screen, in
        which case the cursor does not move.  What is returned is one more than the
        number of bytes written. */
    method Write(text: seq<Byte>, col: int, row: int) returns (r: int)
      requires Valid() && Plain(text)
      requires col != -1 && row != -1 ==> 0 <= col < cols && 0 <= row < rows
      modifies buffer, this`ink, this`top, this`cCol, this`cRow
      ensures Valid()
      ensures disabled ==> r == 0 && buffer[..] == old(buffer[..]) &&
                           ink == old(ink) && top == old(top) && cCol == old(cCol) && cRow == old(cRow)
      ensures !disabled && (col == -1 || row == -1) ==>
                var end := FeedAll(cols, color, Paper(old(ink), old(top) + old(cRow), old(cCol)), text);
                && r == |text| + 1 && top == TopFor(old(top), rows, end.row)
                && Paper(ink, top + cRow, cCol) == end
      ensures !disabled && col != -1 && row != -1 ==>
                var end := FeedAll(cols, color, Paper(old(ink), old(top) + row, col), text);
                && r == |text| + 1 && top == TopFor(old(top), rows, end.row)
                && ink == end.ink && cRow == old(cRow) && cCol == old(cCol)
    {
      if disabled { return 0; }
      if col == -1 || row == -1 {
        cCol, cRow := WriteFrom(text, cCol, cRow);
      } else {
        var curCol, curRow := WriteFrom(text, col, row);
      }
      return |text| + 1;
    }

    method ClearColumn(i: nat)
      requires Shows(buffer[..], cols, rows, ink, top) && i < cols
      modifies buffer, this`ink
      ensures Shows(buffer[..], cols, rows, ink, top)
      ensures forall r: nat, c: nat :: At(ink, r, c) ==
                if c == i && top <= r < top + rows then Cell(SPACE, color) else At(old(ink), r, c)
    {
      var j := 0;
      while j < rows
        invariant 0 <= j <= rows
        invariant Shows(buffer[..], cols, rows, ink, top)
        invariant forall r: nat, c: nat :: At(ink, r, c) ==
                    if c == i && top <= r < top + j then Cell(SPACE, color) else At(old(ink), r, c)
      {
        ghost var prev := ink;
        AtPut(prev, top + j, i, Cell(SPACE, color));
        Put(i, j, SPACE);
        assert ink == prev[(top + j, i) := Cell(SPACE, color)];
        forall r: nat, c: nat
          ensures At(ink, r, c) ==
                  if c == i && top <= r < top + j + 1 then Cell(SPACE, color) else At(old(ink), r, c)
        {
          assert At(ink, r, c) == if r == top + j && c == i then Cell(SPACE, color) else At(prev, r, c);
        }
        j := j + 1;
      }
    }

    /** tty_clear_buf: a clean sheet of spaces, and the cursor at its start. */
    method ClearBuf()
      requires Valid()
      modifies buffer, this`ink, this`top, this`cCol, this`cRow
      ensures Valid() && cCol == 0 && cRow == 0 && top == 0
      ensures forall r: nat, c: nat :: At(ink, r, c) == if r < rows && c < cols then Cell(SPACE, color) else BLANK
    {
      var i := 0;
      while i < cols
        invariant 0 <= i <= cols && top == old(top)
        invariant Shows(buffer[..], cols, rows, ink, top)
        invariant forall r: nat, c: nat | top <= r < top + rows && c < i :: At(ink, r, c) == Cell(SPACE, color)
      {
        ClearColumn(i);
        i := i + 1;
      }
      ghost var sheet := map r: nat, c: nat | r < rows && c < cols :: (r, c) := Cell(SPACE, color);
      SheetShows(buffer[..], cols, rows, ink, top, sheet, Cell(SPACE, color));
      ink, top := sheet, 0;
      cCol, cRow := 0, 0;
    }
  }
}
