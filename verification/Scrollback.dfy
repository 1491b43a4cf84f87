/** A terminal that never scrolls: text is written onto an endless sheet of paper.  This is
    what the screen buffer of kernel/yanix/tty/tty_dev.c shows the last lines of; `Tty`
    proves that it does.

    Only text without escape sequences is modelled. */
module Scrollback {

  type Byte = x: int | 0 <= x < 256

  const BACKSPACE: Byte := 8
  const TAB: Byte := 9
  const NEWLINE: Byte := 10
  const RETURN: Byte := 13
  const ESCAPE: Byte := 27
  const SPACE: Byte := 32

  const TAB_WIDTH: nat := 4

  /** A character and its colour; cells that nothing was written to are all zero. */
  datatype Cell = Cell(ch: Byte, color: Byte)

  const BLANK: Cell := Cell(0, 0)

  type Ink = map<(nat, nat), Cell>

  function At(ink: Ink, row: nat, col: nat): Cell {
    if (row, col) in ink then ink[(row, col)] else BLANK
  }

  /** The paper and the position of the pen. */
  datatype Paper = Paper(ink: Ink, row: nat, col: nat)

  predicate Plain(text: seq<Byte>) {
    forall i | 0 <= i < |text| :: text[i] != ESCAPE
  }

  predicate Printable(b: Byte) {
    b !in {BACKSPACE, TAB, NEWLINE, RETURN, ESCAPE}
  }

  function Wrap(cols: nat, p: Paper): Paper {
    if p.col >= cols then p.(row := p.row + 1, col := 0) else p
  }

  /** What a byte does before the right margin is looked at. */
  function Strike(color: Byte, p: Paper, b: Byte): Paper {
    if b == NEWLINE || b == RETURN then
      p.(row := p.row + 1, col := 0)
    else if b == TAB then
      p.(col := p.col + TAB_WIDTH)
    else if b == BACKSPACE then
      if p.col == 0 then p
      else
        var erased := At(p.ink, p.row, p.col - 1).(ch := SPACE);
        Paper(p.ink[(p.row, p.col - 1) := erased], p.row, p.col - 1)
    else
      Paper(p.ink[(p.row, p.col) := Cell(b, color)], p.row, p.col + 1)
  }

  function Feed(cols: nat, color: Byte, p: Paper, b: Byte): Paper {
    Wrap(cols, Strike(color, p, b))
  }

  function FeedAll(cols: nat, color: Byte, p: Paper, text: seq<Byte>): Paper
    decreases |text|
  {
    if text == [] then p
    else Feed(cols, color, FeedAll(cols, color, p, text[..|text| - 1]), text[|text| - 1])
  }

  // ---------------------------------------------------------------- laws of the paper

  /** The pen stays between the margins and never moves up; lines above it are final. */
  lemma FeedBounds(cols: nat, color: Byte, p: Paper, b: Byte, r: nat, c: nat)
    requires p.col < cols
    ensures var q := Feed(cols, color, p, b);
            q.col < cols && p.row <= q.row <= p.row + 1 && (r != p.row ==> At(q.ink, r, c) == At(p.ink, r, c))
  {
  }

  lemma {:induction false} FeedAllBounds(cols: nat, color: Byte, p: Paper, text: seq<Byte>)
    requires p.col < cols
    ensures var q := FeedAll(cols, color, p, text);
            q.col < cols && p.row <= q.row <= p.row + |text|
    decreases |text|
  {
    if text != [] {
      var k := |text| - 1;
      FeedAllBounds(cols, color, p, text[..k]);
      FeedBounds(cols, color, FeedAll(cols, color, p, text[..k]), text[k], 0, 0);
    }
  }

  lemma {:induction false} LinesAbovePenAreFinal(cols: nat, color: Byte, p: Paper, text: seq<Byte>, r: nat, c: nat)
    requires p.col < cols && r < p.row
    ensures At(FeedAll(cols, color, p, text).ink, r, c) == At(p.ink, r, c)
    decreases |text|
  {
    if text != [] {
      var k := |text| - 1;
      LinesAbovePenAreFinal(cols, color, p, text[..k], r, c);
      FeedAllBounds(cols, color, p, text[..k]);
      FeedBounds(cols, color, FeedAll(cols, color, p, text[..k]), text[k], r, c);
    }
  }

  /** Writing a text in pieces is writing it at once. */
  lemma {:induction false} FeedAllConcat(cols: nat, color: Byte, p: Paper, a: seq<Byte>, b: seq<Byte>)
    ensures FeedAll(cols, color, p, a + b) == FeedAll(cols, color, FeedAll(cols, color, p, a), b)
    decreases |b|
  {
    if b == [] {
      assert a + b == a;
    } else {
      var k := |b| - 1;
      FeedAllConcat(cols, color, p, a, b[..k]);
      assert (a + b)[..|a + b| - 1] == a + b[..k];
    }
  }

  /** The number of cells before a position, in reading order. */
  function Position(cols: nat, row: nat, col: nat): nat { row * cols + col }

  lemma FeedPrintable(cols: nat, color: Byte, p: Paper, b: Byte)
    requires p.col < cols && Printable(b)
    ensures var q := Feed(cols, color, p, b);
            && q.col < cols
            && Position(cols, q.row, q.col) == Position(cols, p.row, p.col) + 1
            && q.ink == p.ink[(p.row, p.col) := Cell(b, color)]
  {
    assert (p.row + 1) * cols == p.row * cols + cols;
  }

  lemma RowsApart(cols: nat, r: nat, r': nat)
    requires r < r'
    ensures r' * cols >= r * cols + cols
  {
    var d := r' - r - 1;
    assert r' * cols == (r + 1 + d) * cols == r * cols + cols + d * cols;
    assert d * cols >= 0;
  }

  lemma PositionUnique(cols: nat, r: nat, c: nat, r': nat, c': nat)
    requires c < cols && c' < cols
    ensures Position(cols, r, c) == Position(cols, r', c') <==> r == r' && c == c'
    ensures r < r' ==> Position(cols, r, c) < Position(cols, r', c')
  {
    if r < r' {
      RowsApart(cols, r, r');
    } else if r' < r {
      RowsApart(cols, r', r);
    }
  }

  /** Printable text fills consecutive cells in reading order, wherever the lines break:
      the cell `i` places after the pen holds character `i`, every other cell is as it
      was, and the pen ends behind the text. */
  lemma {:induction false} PrintableTextFlows(cols: nat, color: Byte, p: Paper, text: seq<Byte>, r: nat, c: nat)
    requires p.col < cols && c < cols && forall i | 0 <= i < |text| :: Printable(text[i])
    ensures var q := FeedAll(cols, color, p, text);
            && q.col < cols
            && Position(cols, q.row, q.col) == Position(cols, p.row, p.col) + |text|
            && var i := Position(cols, r, c) - Position(cols, p.row, p.col);
            At(q.ink, r, c) == if 0 <= i < |text| then Cell(text[i], color) else At(p.ink, r, c)
    decreases |text|
  {
    if text != [] {
      var k := |text| - 1;
      PrintableTextFlows(cols, color, p, text[..k], r, c);
      var m := FeedAll(cols, color, p, text[..k]);
      FeedPrintable(cols, color, m, text[k]);
      PositionUnique(cols, r, c, m.row, m.col);
    }
  }

  // ---------------------------------------------------------------- control characters

  /** One more byte behind a text. */
  lemma OneMore(cols: nat, color: Byte, p: Paper, text: seq<Byte>, b: Byte)
    ensures FeedAll(cols, color, p, text + [b]) == Feed(cols, color, FeedAll(cols, color, p, text), b)
  {
    assert (text + [b])[..|text|] == text;
  }

  /** Behind any text, a newline or a return puts the pen at the start of the next row and
      marks nothing. */
  lemma NewlineMoves(cols: nat, color: Byte, p: Paper, text: seq<Byte>, b: Byte)
    requires p.col < cols && (b == 10 || b == 13)
    ensures var m, q := FeedAll(cols, color, p, text), FeedAll(cols, color, p, text + [b]);
            q.row == m.row + 1 && q.col == 0 && q.ink == m.ink
  {
    OneMore(cols, color, p, text, b);
  }

  /** A tab moves the pen four columns to the right or, when that reaches the margin, to the
      start of the next row, and marks nothing. */
  lemma TabMoves(cols: nat, color: Byte, p: Paper, text: seq<Byte>)
    requires p.col < cols
    ensures var m, q := FeedAll(cols, color, p, text), FeedAll(cols, color, p, text + [9]);
            && q.ink == m.ink
            && if m.col + 4 < cols then q.row == m.row && q.col == m.col + 4 else q.row == m.row + 1 && q.col == 0
  {
    OneMore(cols, color, p, text, 9);
  }

  /** A backspace moves the pen one column to the left and leaves a space there, in the
      colour the cell had; in column 0 it does nothing. */
  lemma BackspaceErases(cols: nat, color: Byte, p: Paper, text: seq<Byte>, r: nat, c: nat)
    requires p.col < cols
    ensures var m, q := FeedAll(cols, color, p, text), FeedAll(cols, color, p, text + [8]);
            if m.col == 0 then q == m
            else
              && q.row == m.row && q.col == m.col - 1
              && At(q.ink, r, c) ==
                 if r == m.row && c == m.col - 1 then Cell(32, At(m.ink, r, c).color) else At(m.ink, r, c)
  {
    FeedAllBounds(cols, color, p, text);
    OneMore(cols, color, p, text, 8);
  }

  /** What a backspace behind a printable character leaves: the pen where it was, and a
      space in the new colour. */
  lemma BackspaceUndoes(cols: nat, color: Byte, p: Paper, b: Byte, r: nat, c: nat)
    requires p.col + 1 < cols && Printable(b)
    ensures var q := FeedAll(cols, color, p, [b] + [8]);
            && q.row == p.row && q.col == p.col
            && At(q.ink, r, c) == if r == p.row && c == p.col then Cell(32, color) else At(p.ink, r, c)
  {
    BackspaceErases(cols, color, p, [b], r, c);
    assert [b][..0] == [];
    assert FeedAll(cols, color, p, [b]) == Feed(cols, color, p, b);
  }

  // ---------------------------------------------------------------- lines of text

  /** Lines with a newline between each and the next. */
  function Joined(lines: seq<seq<Byte>>): seq<Byte> {
    if lines == [] then []
    else if |lines| == 1 then lines[0]
    else Joined(lines[..|lines| - 1]) + [10] + lines[|lines| - 1]
  }

  /** The column line `k` starts in. */
  function StartCol(p: Paper, k: nat): nat { if k == 0 then p.col else 0 }

  /** The row line `k` starts in: behind all the rows the line before it takes up. */
  function StartRow(cols: nat, p: Paper, lines: seq<seq<Byte>>, k: nat): nat
    requires cols > 0 && k <= |lines|
  {
    if k == 0 then p.row
    else StartRow(cols, p, lines, k - 1) + (StartCol(p, k - 1) + |lines[k - 1]|) / cols + 1
  }

  predicate AllPrintable(text: seq<Byte>) { forall i | 0 <= i < |text| :: Printable(text[i]) }

  predicate AllLinesPrintable(lines: seq<seq<Byte>>) { forall k | 0 <= k < |lines| :: AllPrintable(lines[k]) }

  /** Cell (r, c) is `n` cells behind the start of row `row`. */
  predicate LiesAt(cols: nat, row: nat, n: nat, r: nat, c: nat)
    requires cols > 0
  {
    r == row + n / cols && c == n % cols
  }

  lemma LiesAtIs(cols: nat, row: nat, n: nat, r: nat, c: nat)
    requires cols > 0
    ensures LiesAt(cols, row, n, r, c) <==> c < cols && Position(cols, r, c) == Position(cols, row, n)
  {
    var q, m := n / cols, n % cols;
    assert n == q * cols + m;
    assert (row + q) * cols == row * cols + q * cols;
    if c < cols { PositionUnique(cols, r, c, row + q, m); }
  }

  /** The pen behind printable text. */
  lemma PenAfter(cols: nat, color: Byte, p: Paper, text: seq<Byte>)
    requires p.col < cols && AllPrintable(text)
    ensures var q := FeedAll(cols, color, p, text); LiesAt(cols, p.row, p.col + |text|, q.row, q.col)
  {
    PrintableTextFlows(cols, color, p, text, 0, 0);
    var q := FeedAll(cols, color, p, text);
    LiesAtIs(cols, p.row, p.col + |text|, q.row, q.col);
  }

  /** Where character `i` of printable text is. */
  lemma CharAt(cols: nat, color: Byte, p: Paper, text: seq<Byte>, i: nat, r: nat, c: nat)
    requires p.col < cols && AllPrintable(text) && i < |text| && LiesAt(cols, p.row, p.col + i, r, c)
    ensures At(FeedAll(cols, color, p, text).ink, r, c) == Cell(text[i], color)
  {
    LiesAtIs(cols, p.row, p.col + i, r, c);
    PrintableTextFlows(cols, color, p, text, r, c);
  }

  /** The next line begins at the start of the row behind the pen's. */
  lemma NextLine(cols: nat, color: Byte, p: Paper, lines: seq<seq<Byte>>, n: nat)
    requires p.col < cols && |lines| == n + 1 && n > 0
    ensures var m := FeedAll(cols, color, p, Joined(lines[..n]));
            FeedAll(cols, color, p, Joined(lines)) == FeedAll(cols, color, Paper(m.ink, m.row + 1, 0), lines[n])
  {
    var text := Joined(lines[..n]);
    NewlineMoves(cols, color, p, text, 10);
    FeedAllConcat(cols, color, p, text + [10], lines[n]);
  }

  lemma {:induction false} StartRowPrefix(cols: nat, p: Paper, lines: seq<seq<Byte>>, n: nat, k: nat)
    requires cols > 0 && k <= n <= |lines|
    ensures StartRow(cols, p, lines[..n], k) == StartRow(cols, p, lines, k)
  {
    if k > 0 { StartRowPrefix(cols, p, lines, n, k - 1); }
  }

  /** The last line of several is written from the start of its row on, ... */
  lemma {:induction false} LastLine(cols: nat, color: Byte, p: Paper, lines: seq<seq<Byte>>, n: nat)
    requires p.col < cols && |lines| == n + 1 && AllLinesPrintable(lines)
    ensures var ink := FeedAll(cols, color, p, Joined(lines[..n])).ink;
            FeedAll(cols, color, p, Joined(lines)) ==
            FeedAll(cols, color, Paper(ink, StartRow(cols, p, lines, n), StartCol(p, n)), lines[n])
    decreases n
  {
    if n > 0 {
      var before := lines[..n];
      LastLine(cols, color, p, before, n - 1);
      var ink := FeedAll(cols, color, p, Joined(before[..n - 1])).ink;
      PenAfter(cols, color, Paper(ink, StartRow(cols, p, before, n - 1), StartCol(p, n - 1)), before[n - 1]);
      StartRowPrefix(cols, p, lines, n, n);
      NextLine(cols, color, p, lines, n);
    }
  }

  /** ... and leaves the rows above alone. */
  lemma EarlierRow(cols: nat, color: Byte, p: Paper, lines: seq<seq<Byte>>, n: nat, r: nat, c: nat)
    requires p.col < cols && |lines| == n + 1 && AllLinesPrintable(lines)
    requires r < StartRow(cols, p, lines, n)
    ensures At(FeedAll(cols, color, p, Joined(lines)).ink, r, c) ==
            At(FeedAll(cols, color, p, Joined(lines[..n])).ink, r, c)
  {
    LastLine(cols, color, p, lines, n);
    var ink := FeedAll(cols, color, p, Joined(lines[..n])).ink;
    var start := Paper(ink, StartRow(cols, p, lines, n), StartCol(p, n));
    LinesAbovePenAreFinal(cols, color, start, lines[n], r, c);
  }

  lemma QuotientMonotone(a: nat, b: nat, cols: nat)
    requires cols > 0 && a <= b
    ensures 0 <= a / cols <= b / cols
  {
    if b / cols < a / cols { RowsApart(cols, b / cols, a / cols); }
  }

  lemma NextStart(cols: nat, p: Paper, lines: seq<seq<Byte>>, k: nat, at: nat)
    requires cols > 0 && k < |lines| && at <= StartCol(p, k) + |lines[k]|
    ensures StartRow(cols, p, lines, k) + at / cols < StartRow(cols, p, lines, k + 1)
  {
    QuotientMonotone(at, StartCol(p, k) + |lines[k]|, cols);
  }

  lemma {:induction false} StartsAscend(cols: nat, p: Paper, lines: seq<seq<Byte>>, k: nat, n: nat)
    requires cols > 0 && k <= n <= |lines|
    ensures StartRow(cols, p, lines, k) <= StartRow(cols, p, lines, n)
    decreases n
  {
    if k < n {
      StartsAscend(cols, p, lines, k, n - 1);
      NextStart(cols, p, lines, n - 1, 0);
    }
  }

  /** Lines take up rows of their own. */
  lemma RowsBefore(cols: nat, p: Paper, lines: seq<seq<Byte>>, k: nat, n: nat, i: nat, r: nat, c: nat)
    requires cols > 0 && k < n <= |lines| && i < |lines[k]|
    requires LiesAt(cols, StartRow(cols, p, lines, k), StartCol(p, k) + i, r, c)
    ensures r < StartRow(cols, p, lines, n)
  {
    NextStart(cols, p, lines, k, StartCol(p, k) + i);
    StartsAscend(cols, p, lines, k + 1, n);
  }

  /** Where text of any number of lines ends up: character `i` of line `k` is `i` cells, in
      reading order, behind the place where the line starts. */
  lemma {:induction false} LinesOfText(cols: nat, color: Byte, p: Paper, lines: seq<seq<Byte>>, n: nat,
                                       k: nat, i: nat, r: nat, c: nat)
    requires p.col < cols && |lines| == n + 1 && AllLinesPrintable(lines) && k <= n && i < |lines[k]|
    requires LiesAt(cols, StartRow(cols, p, lines, k), StartCol(p, k) + i, r, c)
    ensures At(FeedAll(cols, color, p, Joined(lines)).ink, r, c) == Cell(lines[k][i], color)
    decreases n
  {
    if k == n {
      LastLine(cols, color, p, lines, n);
      var ink := FeedAll(cols, color, p, Joined(lines[..n])).ink;
      CharAt(cols, color, Paper(ink, StartRow(cols, p, lines, n), StartCol(p, n)), lines[n], i, r, c);
    } else {
      StartRowPrefix(cols, p, lines, n, k);
      LinesOfText(cols, color, p, lines[..n], n - 1, k, i, r, c);
      RowsBefore(cols, p, lines, k, n, i, r, c);
      EarlierRow(cols, color, p, lines, n, r, c);
    }
  }

  // ---------------------------------------------------------------- many writes

  /** The first line shown once line `row` has to be visible. */
  function TopFor(top: nat, rows: nat, row: nat): nat {
    if row + 1 > top + rows then row + 1 - rows else top
  }

  function Concat(texts: seq<seq<Byte>>): seq<Byte> {
    if texts == [] then [] else Concat(texts[..|texts| - 1]) + texts[|texts| - 1]
  }

  /** A series of writes at the cursor, each starting where the last one ended: the first
      line shown, and the paper. */
  function WriteAll(cols: nat, rows: nat, color: Byte, top: nat, p: Paper, texts: seq<seq<Byte>>): (nat, Paper)
    decreases |texts|
  {
    if texts == [] then (top, p)
    else
      var (t, q) := WriteAll(cols, rows, color, top, p, texts[..|texts| - 1]);
      var q' := FeedAll(cols, color, q, texts[|texts| - 1]);
      (TopFor(t, rows, q'.row), q')
  }

  /** Any series of writes leaves the screen that one write of the whole text leaves: the
      lines that end with the last one the pen reached. */
  lemma {:induction false} ManyWrites(cols: nat, rows: nat, color: Byte, top: nat, p: Paper, texts: seq<seq<Byte>>)
    requires p.col < cols && top <= p.row < top + rows
    ensures var end := FeedAll(cols, color, p, Concat(texts));
            WriteAll(cols, rows, color, top, p, texts) == (TopFor(top, rows, end.row), end)
    ensures var (first, end) := WriteAll(cols, rows, color, top, p, texts);
            top <= first <= end.row < first + rows && (first > top ==> end.row == first + rows - 1)
    decreases |texts|
  {
    if texts != [] {
      var k := |texts| - 1;
      ManyWrites(cols, rows, color, top, p, texts[..k]);
      FeedAllConcat(cols, color, p, Concat(texts[..k]), texts[k]);
      FeedAllBounds(cols, color, p, Concat(texts[..k]));
      FeedAllBounds(cols, color, FeedAll(cols, color, p, Concat(texts[..k])), texts[k]);
    }
  }
}
