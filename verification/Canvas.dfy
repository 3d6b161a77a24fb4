/**
 The unbounded canvas behind a screen: the printed text, cut at line breaks and wrapped every 80
 characters, on rows without end. The screen is proved to be the window on its last 25 rows.
 */
module Canvas {
  import opened Basics
  import opened Screen

  /** One line of text cut into rows of 80; a line that fills its last row goes on with an empty one. */
  function Wrap(line: seq<byte>): (rows: seq<seq<byte>>)
    ensures rows != [] && |Last(rows)| < NUM_COLS
    ensures forall i :: 0 <= i < |rows| ==> |rows[i]| <= NUM_COLS
  {
    if |line| < NUM_COLS then [line]
    else [line[..NUM_COLS]] + Wrap(line[NUM_COLS..])
  }

  /** The position of the first line break, or the text's length. */
  function FirstBreak(text: seq<byte>): (k: nat)
    ensures k <= |text| && (forall i :: 0 <= i < k ==> !IsBreak(text[i])) && (k < |text| ==> IsBreak(text[k]))
  {
    if text == [] || IsBreak(text[0]) then 0 else 1 + FirstBreak(text[1..])
  }

  /** All rows of a text: its lines one after the other, each wrapped. */
  function Rows(text: seq<byte>): (rows: seq<seq<byte>>)
    ensures rows != [] && |Last(rows)| < NUM_COLS
    ensures forall i :: 0 <= i < |rows| ==> |rows[i]| <= NUM_COLS
    decreases |text|
  {
    var k := FirstBreak(text);
    if k == |text| then Wrap(text) else Wrap(text[..k]) + Rows(text[k + 1..])
  }

  /** The canvas cell at a row and column; blank where nothing was printed. */
  function CanvasCell(rows: seq<seq<byte>>, color: byte, r: int, c: int): Cell {
    if 0 <= r < |rows| && 0 <= c < |rows[r]| then Cell(rows[r][c], color) else Blank(color)
  }

  /** The first canvas row in the window. */
  function Top(rows: seq<seq<byte>>): int {
    if |rows| <= NUM_ROWS then 0 else |rows| - NUM_ROWS
  }

  /** The cells are those of the canvas from row top on. */
  ghost predicate Window(cells: seq<Cell>, rows: seq<seq<byte>>, color: byte, top: int)
    requires |cells| == CELLS
  {
    forall r, c :: 0 <= r < NUM_ROWS && 0 <= c < NUM_COLS ==>
      At(cells, r, c) == CanvasCell(rows, color, top + r, c)
  }

  /** The screen shows the canvas from row top on, and its cursor is where the next character goes. */
  ghost predicate ShowsFrom(s: Screen, rows: seq<seq<byte>>, color: byte, top: int)
    requires rows != []
  {
    Framed(s) && s.x == |Last(rows)| && s.y == |rows| - 1 - top && Window(s.cells, rows, color, top)
  }

  /** The screen shows the last 25 rows of the canvas. */
  ghost predicate Shows(s: Screen, rows: seq<seq<byte>>, color: byte)
    requires rows != []
  {
    ShowsFrom(s, rows, color, Top(rows))
  }

  /** Top, or one row further when the canvas is taller than the screen: then the last screen row is blank. */
  predicate Near(rows: seq<seq<byte>>, top: int) {
    top == Top(rows) || (top == Top(rows) + 1 && |rows| >= NUM_ROWS)
  }

  /** The screen shows the end of the canvas, give or take a blank row at the bottom. */
  ghost predicate Displays(s: Screen, rows: seq<seq<byte>>, color: byte)
    requires rows != []
  {
    Near(rows, |rows| - 1 - s.y) && ShowsFrom(s, rows, color, |rows| - 1 - s.y)
  }

  /** What one more character does to the rows. */
  function Extend(rows: seq<seq<byte>>, c: byte): seq<seq<byte>>
    requires rows != []
  {
    if IsBreak(c) then rows + [[]]
    else
      var grown := rows[..|rows| - 1] + [Last(rows) + [c]];
      if |Last(rows)| + 1 == NUM_COLS then grown + [[]] else grown
  }

  lemma {:induction false} WrapExtend(line: seq<byte>, c: byte)
    requires !IsBreak(c)
    ensures Wrap(line + [c]) == Extend(Wrap(line), c)
    decreases |line|
  {
    if |line| < NUM_COLS - 1 {
    } else if |line| == NUM_COLS - 1 {
      assert (line + [c])[..NUM_COLS] == line + [c];
      assert (line + [c])[NUM_COLS..] == [];
      assert Wrap([]) == [[]];
    } else {
      assert (line + [c])[..NUM_COLS] == line[..NUM_COLS];
      assert (line + [c])[NUM_COLS..] == line[NUM_COLS..] + [c];
      WrapExtend(line[NUM_COLS..], c);
      ExtendAfter([line[..NUM_COLS]], Wrap(line[NUM_COLS..]), c);
    }
  }

  /** Extending touches the last row only, so a prefix of rows stays put. */
  lemma ExtendAfter(front: seq<seq<byte>>, rows: seq<seq<byte>>, c: byte)
    requires rows != []
    ensures Extend(front + rows, c) == front + Extend(rows, c)
  {
    var all := front + rows;
    assert Last(all) == Last(rows);
    assert all[..|all| - 1] == front + rows[..|rows| - 1];
  }

  lemma FirstBreakExtend(text: seq<byte>, c: byte)
    ensures FirstBreak(text) < |text| ==> FirstBreak(text + [c]) == FirstBreak(text)
    ensures FirstBreak(text) == |text| ==> FirstBreak(text + [c]) == if IsBreak(c) then |text| else |text| + 1
  {
    var k, longer := FirstBreak(text + [c]), text + [c];
    if k < |text| { assert longer[k] == text[k]; }
    if FirstBreak(text) < |text| { assert longer[FirstBreak(text)] == text[FirstBreak(text)]; }
    assert longer[|text|] == c;
    assert forall i :: 0 <= i < |text| ==> longer[i] == text[i];
  }

  lemma NoRows()
    ensures Rows([]) == [[]]
  {
  }

  lemma {:induction false} RowsExtend(text: seq<byte>, c: byte)
    ensures Rows(text + [c]) == Extend(Rows(text), c)
    decreases |text|
  {
    FirstBreakExtend(text, c);
    hide FirstBreak, Wrap;
    var k, longer := FirstBreak(text), text + [c];
    if k < |text| {
      hide Extend;
      assert longer[..k] == text[..k];
      assert longer[k + 1..] == text[k + 1..] + [c];
      RowsExtend(text[k + 1..], c);
      ExtendAfter(Wrap(text[..k]), Rows(text[k + 1..]), c);
    } else if IsBreak(c) {
      assert longer[..k] == text && longer[k + 1..] == [];
      NoRows();
    } else {
      hide Extend;
      WrapExtend(text, c);
    }
  }

  /** Where scrolling takes a cell from. */
  lemma ScrolledCell(cells: seq<Cell>, color: byte, r: int, c: int)
    requires |cells| == CELLS && 0 <= r < NUM_ROWS && 0 <= c < NUM_COLS
    ensures At(Scrolled(cells, color), r, c) == if r + 1 < NUM_ROWS then At(cells, r + 1, c) else Blank(color)
  {
  }

  /** Writing one cell leaves the others alone. */
  lemma WrittenCell(cells: seq<Cell>, y: int, x: int, cell: Cell, r: int, c: int)
    requires |cells| == CELLS && 0 <= r < NUM_ROWS && 0 <= c < NUM_COLS && 0 <= y < NUM_ROWS && 0 <= x < NUM_COLS
    ensures At(cells[NUM_COLS * y + x := cell], r, c) == if r == y && c == x then cell else At(cells, r, c)
  {
  }

  /** What the canvas shows after one more character, in terms of what it showed before. */
  lemma ExtendedCell(rows: seq<seq<byte>>, color: byte, c: byte, r: int, k: int)
    requires rows != [] && |Last(rows)| < NUM_COLS && 0 <= k < NUM_COLS
    ensures CanvasCell(Extend(rows, c), color, r, k) ==
      if !IsBreak(c) && r == |rows| - 1 && k == |Last(rows)| then Cell(c, color) else CanvasCell(rows, color, r, k)
  {
  }

  /** The screen once the character is written and before any scrolling: the window has not moved. */
  function Written(s: Screen, color: byte, c: byte): (cells: seq<Cell>)
    requires Framed(s)
    ensures |cells| == CELLS
  {
    if IsBreak(c) then s.cells else s.cells[NUM_COLS * s.y + s.x := Cell(c, color)]
  }

  lemma WrittenShows(s: Screen, rows: seq<seq<byte>>, color: byte, c: byte, top: int, r: int, k: int)
    requires rows != [] && |Last(rows)| < NUM_COLS && ShowsFrom(s, rows, color, top)
    requires 0 <= r < NUM_ROWS && 0 <= k < NUM_COLS
    ensures At(Written(s, color, c), r, k) == CanvasCell(Extend(rows, c), color, top + r, k)
  {
    hide Extend, CanvasCell;
    WrittenCell(s.cells, s.y, s.x, Cell(c, color), r, k);
    ExtendedCell(rows, color, c, top + r, k);
  }

  /** A scroll moves the window down one row, when what it uncovers is blank. */
  lemma ScrollMovesWindow(cells: seq<Cell>, rows: seq<seq<byte>>, color: byte, top: int)
    requires |cells| == CELLS && Window(cells, rows, color, top)
    requires 0 <= top + NUM_ROWS < |rows| ==> rows[top + NUM_ROWS] == []
    ensures Window(Scrolled(cells, color), rows, color, top + 1)
  {
    hide At, Scrolled;
    forall r, c | 0 <= r < NUM_ROWS && 0 <= c < NUM_COLS
      ensures At(Scrolled(cells, color), r, c) == CanvasCell(rows, color, top + 1 + r, c)
    {
      ScrolledCell(cells, color, r, c);
      assert top + 1 + r == top + (r + 1);
    }
  }

  /** When putc scrolls, the window moves down one row; otherwise it stays. */
  lemma PutcScrolls(s: Screen, rows: seq<seq<byte>>, color: byte, c: byte, top: int) returns (scrolls: bool)
    requires rows != [] && |Last(rows)| < NUM_COLS && ShowsFrom(s, rows, color, top)
    ensures scrolls <==> s.y == NUM_ROWS - 1 && (IsBreak(c) || s.x == NUM_COLS - 1)
    ensures var t, after := Putc(s, color, c), Extend(rows, c);
      && t.cells == (if scrolls then Scrolled(Written(s, color, c), color) else Written(s, color, c))
      && (scrolls ==> Last(after) == [] && |after| == top + 1 + NUM_ROWS)
      && t.x == |Last(after)| && t.y == |after| - 1 - (if scrolls then top + 1 else top)
  {
    hide Scrolled, At, CanvasCell, Window;
    scrolls := s.y == NUM_ROWS - 1 && (IsBreak(c) || s.x == NUM_COLS - 1);
  }

  /** One putc on the screen is one more character on the canvas. */
  lemma PutcShowsFrom(s: Screen, rows: seq<seq<byte>>, color: byte, c: byte, top: int)
    requires rows != [] && |Last(rows)| < NUM_COLS && ShowsFrom(s, rows, color, top)
    ensures var scrolls := s.y == NUM_ROWS - 1 && (IsBreak(c) || s.x == NUM_COLS - 1);
      ShowsFrom(Putc(s, color, c), Extend(rows, c), color, if scrolls then top + 1 else top)
  {
    var after := Extend(rows, c);
    var scrolls := PutcScrolls(s, rows, color, c, top);
    hide Putc, Extend, Scrolled, CanvasCell, Written, At;
    forall r, k | 0 <= r < NUM_ROWS && 0 <= k < NUM_COLS
      ensures At(Written(s, color, c), r, k) == CanvasCell(after, color, top + r, k)
    {
      WrittenShows(s, rows, color, c, top, r, k);
    }
    if scrolls {
      ScrollMovesWindow(Written(s, color, c), after, color, top);
    }
  }

  lemma PutcExtends(s: Screen, rows: seq<seq<byte>>, color: byte, c: byte)
    requires rows != [] && |Last(rows)| < NUM_COLS && Shows(s, rows, color)
    ensures Shows(Putc(s, color, c), Extend(rows, c), color)
  {
    PutcShowsFrom(s, rows, color, c, Top(rows));
    hide Putc, Window;
  }

  lemma PutcDisplays(s: Screen, rows: seq<seq<byte>>, color: byte, c: byte)
    requires rows != [] && |Last(rows)| < NUM_COLS && Displays(s, rows, color)
    ensures Displays(Putc(s, color, c), Extend(rows, c), color)
  {
    PutcShowsFrom(s, rows, color, c, |rows| - 1 - s.y);
    hide Putc, Window;
  }

  /** From a cleared screen, whatever is printed, the screen is the window on the canvas. */
  lemma {:induction false} ScreenShowsCanvas(color: byte, text: seq<byte>)
    ensures Shows(PutAll(Cleared(color), color, text), Rows(text), color)
    decreases |text|
  {
    if text == [] {
      assert Rows(text) == [[]];
    } else {
      var front := text[..|text| - 1];
      ScreenShowsCanvas(color, front);
      assert text == front + [Last(text)];
      PutAllAppends(Cleared(color), color, front, [Last(text)]);
      PutcExtends(PutAll(Cleared(color), color, front), Rows(front), color, Last(text));
      RowsExtend(front, Last(text));
    }
  }
}
