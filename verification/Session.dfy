/**
 A terminal session on the screen: programs print, lines are typed and edited, Enter ends them, CTRL+L starts a
 new page. The screen is proved to show the canvas of the transcript, with the unfinished line behind it.
 */
module Session {
  import opened Basics
  import opened Screen
  import opened Canvas
  import opened Line
  import opened World
  import opened Typing

  // ---------- an unfinished line on the canvas ----------

  /** The rows of a canvas with a line typed behind them. */
  function Grown(rows: seq<seq<byte>>, line: seq<byte>): (r: seq<seq<byte>>)
    requires rows != []
    ensures r != [] && |Last(r)| < NUM_COLS
  {
    rows[..|rows| - 1] + Wrap(Last(rows) + line)
  }

  /** A wrapped line holds its characters row by row. */
  lemma {:induction false} WrapCell(line: seq<byte>, color: byte, q: nat, k: nat)
    requires k < NUM_COLS
    ensures |Wrap(line)| == |line| / NUM_COLS + 1 && |Last(Wrap(line))| == |line| % NUM_COLS
    ensures CanvasCell(Wrap(line), color, q, k)
         == if NUM_COLS * q + k < |line| then Cell(line[NUM_COLS * q + k], color) else Blank(color)
    decreases |line|
  {
    if |line| >= NUM_COLS {
      var rest := line[NUM_COLS..];
      WrapCell(rest, color, if q == 0 then 0 else q - 1, k);
      assert Wrap(line) == [line[..NUM_COLS]] + Wrap(rest);
    }
  }

  lemma GrownCell(rows: seq<seq<byte>>, line: seq<byte>, color: byte, r: int, k: nat)
    requires rows != [] && k < NUM_COLS
    ensures |Grown(rows, line)| == |rows| + (|Last(rows)| + |line|) / NUM_COLS
    ensures |Last(Grown(rows, line))| == (|Last(rows)| + |line|) % NUM_COLS
    ensures var all, p := Last(rows) + line, NUM_COLS * (r - |rows| + 1) + k;
      CanvasCell(Grown(rows, line), color, r, k)
      == if r < |rows| - 1 then CanvasCell(rows, color, r, k)
         else if p < |all| then Cell(all[p], color) else Blank(color)
  {
    var all := Last(rows) + line;
    if r < |rows| - 1 {
      WrapCell(all, color, 0, k);
    } else {
      WrapCell(all, color, r - |rows| + 1, k);
    }
  }

  lemma NothingGrown(rows: seq<seq<byte>>)
    requires rows != [] && |Last(rows)| < NUM_COLS
    ensures Grown(rows, []) == rows
  {
    assert Last(rows) + [] == Last(rows);
  }

  lemma GrownExtends(rows: seq<seq<byte>>, line: seq<byte>, c: byte)
    requires rows != [] && !IsBreak(c)
    ensures Grown(rows, line + [c]) == Extend(Grown(rows, line), c)
  {
    hide Wrap, Extend;
    assert Last(rows) + (line + [c]) == (Last(rows) + line) + [c];
    WrapExtend(Last(rows) + line, c);
    ExtendAfter(rows[..|rows| - 1], Wrap(Last(rows) + line), c);
  }

  /** Typing a line is printing it, as far as the canvas goes. */
  lemma {:induction false} GrownIsRows(text: seq<byte>, line: seq<byte>)
    requires forall i :: 0 <= i < |line| ==> !IsBreak(line[i])
    ensures Grown(Rows(text), line) == Rows(text + line)
    decreases |line|
  {
    hide Grown, Rows, Extend;
    if line == [] {
      NothingGrown(Rows(text));
      assert text + [] == text;
    } else {
      var front, c := line[..|line| - 1], Last(line);
      GrownIsRows(text, front);
      assert line == front + [c] && text + line == (text + front) + [c];
      GrownExtends(Rows(text), front, c);
      RowsExtend(text + front, c);
    }
  }

  /** The cell at row r and column k of a screen whose line starts at row y: the canvas above that row, then the
      row's text and the typed line, wrapped, and nothing behind them. */
  function EchoCell(rows: seq<seq<byte>>, line: seq<byte>, color: byte, y: int, r: int, k: int): Cell
    requires rows != [] && 0 <= k
  {
    var all, p := Last(rows) + line, NUM_COLS * (r - y) + k;
    if r < y then CanvasCell(rows, color, |rows| - 1 - y + r, k)
    else if p < |all| then Cell(all[p], color) else Blank(color)
  }

  /** The terminal shows the end of the canvas with the typed line behind it, and blanks behind that. Its cursor
      stays where the line starts. */
  ghost predicate Echoes(t: Term, rows: seq<seq<byte>>, color: byte)
    requires rows != []
  {
    && Sound(t) && |Last(rows)| < NUM_COLS && t.screen.x == |Last(rows)| && Near(rows, |rows| - 1 - t.screen.y)
    && (t.screen.y == NUM_ROWS - 1 ==> t.screen.x + StrLen(t.kb) < NUM_COLS)
    && NUM_COLS * t.screen.y + t.screen.x + StrLen(t.kb) <= CELLS
    && Window(t.screen.cells, Grown(rows, Typed(t.kb)), color, |rows| - 1 - t.screen.y)
  }

  /** The same cell by cell. */
  ghost predicate CellsEcho(cells: seq<Cell>, rows: seq<seq<byte>>, line: seq<byte>, color: byte, y: int)
    requires |cells| == CELLS && rows != []
  {
    forall r, k :: 0 <= r < NUM_ROWS && 0 <= k < NUM_COLS ==> At(cells, r, k) == EchoCell(rows, line, color, y, r, k)
  }

  lemma EchoIsWindow(cells: seq<Cell>, rows: seq<seq<byte>>, line: seq<byte>, color: byte, y: int)
    requires |cells| == CELLS && rows != []
    ensures CellsEcho(cells, rows, line, color, y) <==> Window(cells, Grown(rows, line), color, |rows| - 1 - y)
  {
    forall r, k | 0 <= r < NUM_ROWS && 0 <= k < NUM_COLS
      ensures EchoCell(rows, line, color, y, r, k) == CanvasCell(Grown(rows, line), color, |rows| - 1 - y + r, k)
    {
      GrownCell(rows, line, color, |rows| - 1 - y + r, k);
    }
  }

  /** A screen that displays a canvas echoes an empty line, and the other way round. */
  lemma EmptyLineEchoes(t: Term, rows: seq<seq<byte>>, color: byte)
    requires rows != [] && Sound(t) && StrLen(t.kb) == 0 && |Last(rows)| < NUM_COLS
    ensures Displays(t.screen, rows, color) <==> Echoes(t, rows, color)
  {
    NothingGrown(rows);
    hide Window, FirstNul, Grown;
  }

  // ---------- the keys ----------

  /** Backspace: the last typed character leaves the screen, and no other cell changes. */
  lemma BackspaceErases(t: Term, color: byte)
    requires Sound(t) && StrLen(t.kb) > 0
    ensures var i, s, s1 := VideoIndex(t, StrLen(t.kb)) - 1, t.screen, Press(t, color, BACKSPACE).screen;
      && s1.x == s.x && s1.y == s.y
      && forall j :: 0 <= j < CELLS ==> s1.cells[j] == if j == i then Cell(SPACE, s.cells[j].attr) else s.cells[j]
  {
    hide FirstNul;
  }

  /** A character: it appears behind the line, and no other cell changes - unless it fills the last row: then the
      screen scrolls and the line starts one row higher. */
  lemma CharAppears(t: Term, color: byte, c: byte)
    requires Sound(t) && EditKey(c) && c != BACKSPACE && StrLen(t.kb) < KB_SIZE - 1
    ensures var n, s, s1 := StrLen(t.kb), t.screen, Press(t, color, c).screen;
      var scrolls := s.y == NUM_ROWS - 1 && s.x + n == NUM_COLS - 1;
      && s1.x == s.x && s1.y == (if scrolls then s.y - 1 else s.y)
      && forall r, k :: 0 <= r < NUM_ROWS && 0 <= k < NUM_COLS ==>
           At(s1.cells, r, k)
           == if scrolls && r == NUM_ROWS - 1 then Blank(color)
              else
                var from := if scrolls then r + 1 else r;
                if NUM_COLS * from + k == VideoIndex(t, n) then Cell(c, color) else At(s.cells, from, k)
  {
    hide FirstNul;
    var i := VideoIndex(t, StrLen(t.kb));
    var written := Write(t.screen.cells, i, Cell(c, color));
    forall r, k | 0 <= r < NUM_ROWS && 0 <= k < NUM_COLS
      ensures At(Scrolled(written, color), r, k) == if r + 1 < NUM_ROWS then At(written, r + 1, k) else Blank(color)
    {
      ScrolledCell(written, color, r, k);
    }
    hide Scrolled;
  }

  /** A key that has nothing to erase, or no room, does nothing. */
  lemma IdleKeys(t: Term, color: byte, c: byte)
    requires Sound(t) && c != NEWLINE
    ensures StrLen(t.kb) == (if c == BACKSPACE then 0 else KB_SIZE - 1) ==> Press(t, color, c) == t
  {
    hide FirstNul;
  }

  lemma BackspaceKeepsEcho(t: Term, rows: seq<seq<byte>>, color: byte)
    requires rows != [] && Echoes(t, rows, color)
    ensures Echoes(Press(t, color, BACKSPACE), rows, color)
  {
    hide Press, StrLen, Window, Grown, CanvasCell, Typed, CellsEcho;
    var n, t1, line := StrLen(t.kb), Press(t, color, BACKSPACE), Typed(t.kb);
    IdleKeys(t, color, BACKSPACE);
    BackspaceMoves(t, color);
    if n > 0 {
      KeyEdits(t, color, BACKSPACE);
      BackspaceErases(t, color);
      EchoIsWindow(t.screen.cells, rows, line, color, t.screen.y);
      EchoIsWindow(t1.screen.cells, rows, line[..n - 1], color, t.screen.y);
      ErasedEcho(t.screen.cells, t1.screen.cells, rows, line, color, t.screen.x, t.screen.y);
    }
  }

  lemma ErasedEcho(cells: seq<Cell>, after: seq<Cell>, rows: seq<seq<byte>>, line: seq<byte>, color: byte,
                   x: int, y: int)
    requires |cells| == |after| == CELLS && rows != [] && line != [] && x == |Last(rows)| < NUM_COLS
    requires CellsEcho(cells, rows, line, color, y) && 0 <= y && NUM_COLS * y + x + |line| <= CELLS
    requires forall j :: 0 <= j < CELLS ==>
      after[j] == if j == NUM_COLS * y + x + |line| - 1 then Cell(SPACE, cells[j].attr) else cells[j]
    ensures CellsEcho(after, rows, line[..|line| - 1], color, y)
  {
    hide CanvasCell;
    forall r, k | 0 <= r < NUM_ROWS && 0 <= k < NUM_COLS
      ensures At(after, r, k) == EchoCell(rows, line[..|line| - 1], color, y, r, k)
    {
      assert At(cells, r, k) == EchoCell(rows, line, color, y, r, k);
    }
  }

  lemma CharKeepsEcho(t: Term, rows: seq<seq<byte>>, color: byte, c: byte)
    requires rows != [] && Echoes(t, rows, color) && EditKey(c) && c != BACKSPACE
    requires EchoIndex(t, c).Some? ==> EchoIndex(t, c).value < CELLS
    ensures Echoes(Press(t, color, c), rows, color)
  {
    hide Press, StrLen, Window, Grown, CanvasCell, Typed, CellsEcho;
    var n, t1, line := StrLen(t.kb), Press(t, color, c), Typed(t.kb);
    IdleKeys(t, color, c);
    CharMoves(t, color, c);
    if n < KB_SIZE - 1 {
      KeyEdits(t, color, c);
      CharAppears(t, color, c);
      EchoIsWindow(t.screen.cells, rows, line, color, t.screen.y);
      EchoIsWindow(t1.screen.cells, rows, line + [c], color, t1.screen.y);
      WrittenEcho(t, t1, rows, line, color, c);
    }
  }

  lemma WrittenEcho(t: Term, t1: Term, rows: seq<seq<byte>>, line: seq<byte>, color: byte, c: byte)
    requires Sound(t) && Sound(t1) && rows != [] && t.screen.x == |Last(rows)| && StrLen(t.kb) == |line|
    requires CellsEcho(t.screen.cells, rows, line, color, t.screen.y)
    requires var n, s, s1 := StrLen(t.kb), t.screen, t1.screen;
      var scrolls := s.y == NUM_ROWS - 1 && s.x + n == NUM_COLS - 1;
      && s1.y == (if scrolls then s.y - 1 else s.y)
      && forall r, k :: 0 <= r < NUM_ROWS && 0 <= k < NUM_COLS ==>
           At(s1.cells, r, k)
           == if scrolls && r == NUM_ROWS - 1 then Blank(color)
              else
                var from := if scrolls then r + 1 else r;
                if NUM_COLS * from + k == VideoIndex(t, n) then Cell(c, color) else At(s.cells, from, k)
    ensures CellsEcho(t1.screen.cells, rows, line + [c], color, t1.screen.y)
  {
    hide CanvasCell, FirstNul, At;
    var scrolls := t.screen.y == NUM_ROWS - 1 && t.screen.x + StrLen(t.kb) == NUM_COLS - 1;
    forall r, k | 0 <= r < NUM_ROWS && 0 <= k < NUM_COLS
      ensures At(t1.screen.cells, r, k) == EchoCell(rows, line + [c], color, t1.screen.y, r, k)
    {
      var from := if scrolls then r + 1 else r;
      if from < NUM_ROWS {
        assert At(t.screen.cells, from, k) == EchoCell(rows, line, color, t.screen.y, from, k);
      }
    }
  }

  /** An edit key that echoes on the screen keeps the screen in agreement with canvas and line. */
  lemma EditKeepsEcho(t: Term, rows: seq<seq<byte>>, color: byte, c: byte)
    requires rows != [] && Echoes(t, rows, color) && EditKey(c)
    requires EchoIndex(t, c).Some? ==> EchoIndex(t, c).value < CELLS
    ensures Echoes(Press(t, color, c), rows, color)
  {
    if c == BACKSPACE { BackspaceKeepsEcho(t, rows, color); } else { CharKeepsEcho(t, rows, color, c); }
  }

  // ---------- Enter ----------

  /** How many rows Enter moves down. */
  function Breaks(x: int, n: int): int {
    if x + n < NUM_COLS then 1 else 2
  }

  /** Enter breaks the line as printing one line break does, or two when the line is 80 characters or longer;
      after a line that ends in column 78 of the last row, it scrolls once more and moves the cursor up. */
  lemma EnterBreaks(t: Term, color: byte)
    requires Sound(t)
    ensures var n, s, s1 := StrLen(t.kb), t.screen, Press(t, color, NEWLINE).screen;
      var broken := if s.x + n < NUM_COLS then Putc(s, color, NEWLINE)
                    else Putc(Putc(s, color, NEWLINE), color, NEWLINE);
      if s.y == NUM_ROWS - 1 && s.x + n == NUM_COLS - 1
      then s1 == Screen(Scrolled(broken.cells, color), 0, NUM_ROWS - 2)
      else s1 == broken
  {
    hide FirstNul, Scrolled;
  }

  /** Breaking a line moves the window only over what is blank. */
  lemma BreakMovesWindow(s: Screen, rows: seq<seq<byte>>, color: byte, top: int)
    requires Framed(s) && Window(s.cells, rows, color, top) && rows != []
    requires s.y == NUM_ROWS - 1 ==>
      |rows| <= top + NUM_ROWS || (|rows| == top + NUM_ROWS + 1 && Last(rows) == [])
    ensures var s1 := Putc(s, color, NEWLINE);
      && s1.x == 0
      && if s.y == NUM_ROWS - 1 then s1.y == s.y && Window(s1.cells, rows, color, top + 1)
         else s1.y == s.y + 1 && s1.cells == s.cells
  {
    if s.y == NUM_ROWS - 1 {
      ScrollMovesWindow(s.cells, rows, color, top);
    }
    hide Window;
  }

  /** After Enter the cells are a window on the canvas with the line, and the cursor is one row below the row
      where the line started, or two. */
  lemma EnterWindow(t: Term, rows: seq<seq<byte>>, color: byte)
    requires rows != [] && Echoes(t, rows, color)
    ensures var s1 := Press(t, color, NEWLINE).screen;
      var cursor := |rows| - 1 + Breaks(t.screen.x, StrLen(t.kb));
      && s1.x == 0 && Window(s1.cells, Grown(rows, Typed(t.kb)), color, cursor - s1.y)
      && s1.y == if t.screen.y == NUM_ROWS - 1 && t.screen.x + StrLen(t.kb) == NUM_COLS - 1 then NUM_ROWS - 2
                 else Min(t.screen.y + Breaks(t.screen.x, StrLen(t.kb)), NUM_ROWS - 1)
  {
    hide Press, StrLen, Typed, Window, Grown, Scrolled;
    var n, s, grown := StrLen(t.kb), t.screen, Grown(rows, Typed(t.kb));
    var top := |rows| - 1 - s.y;
    EnterBreaks(t, color);
    GrownCell(rows, Typed(t.kb), color, 0, 0);
    BreakMovesWindow(s, grown, color, top);
    var once := Putc(s, color, NEWLINE);
    if s.x + n >= NUM_COLS {
      BreakMovesWindow(once, grown, color, |rows| - once.y);
    } else if s.y == NUM_ROWS - 1 && s.x + n == NUM_COLS - 1 {
      ScrollMovesWindow(once.cells, grown, color, |rows| - once.y);
    }
  }

  lemma EmptyRow(cells: seq<Cell>, rows: seq<seq<byte>>, color: byte, top: int)
    requires |cells| == CELLS
    ensures Window(cells, rows, color, top) <==> Window(cells, rows + [[]], color, top)
  {
    assert forall r, k :: CanvasCell(rows, color, r, k) == CanvasCell(rows + [[]], color, r, k);
  }

  /** Two windows one row apart can only be the same if both are blank. */
  lemma TwoWindows(cells: seq<Cell>, rows: seq<seq<byte>>, color: byte, top: int, r: nat, k: nat)
    requires |cells| == CELLS && rows != []
    requires Window(cells, rows, color, top) && Window(cells, rows, color, top + 1)
    requires |rows| <= top + 1 + NUM_ROWS && (|rows| == top + 1 + NUM_ROWS ==> Last(rows) == [])
    requires r < NUM_ROWS && k < NUM_COLS
    ensures At(cells, r, k) == Blank(color)
    decreases NUM_ROWS - r
  {
    hide At;
    assert At(cells, r, k) == CanvasCell(rows, color, top + 1 + r, k);
    if r + 1 < NUM_ROWS {
      TwoWindows(cells, rows, color, top, r + 1, k);
      assert At(cells, r + 1, k) == CanvasCell(rows, color, top + (r + 1), k);
    }
  }

  /** Enter is a line break on the canvas, for every line that ends before its third row. */
  lemma EnterDisplays(t: Term, rows: seq<seq<byte>>, color: byte)
    requires rows != [] && Echoes(t, rows, color) && t.screen.x + StrLen(t.kb) < 2 * NUM_COLS
    ensures Displays(Press(t, color, NEWLINE).screen, Grown(rows, Typed(t.kb)) + [[]], color)
  {
    hide Press, StrLen, Typed, Window, Grown;
    var s1, line := Press(t, color, NEWLINE).screen, Typed(t.kb);
    EnterWindow(t, rows, color);
    GrownCell(rows, line, color, 0, 0);
    EmptyRow(s1.cells, Grown(rows, line), color, |rows| - 1 + Breaks(t.screen.x, |line|) - s1.y);
  }

  /** And for no other, unless it is blank: then the cursor is still on the line's last row. */
  lemma EnterDisplaysIff(t: Term, rows: seq<seq<byte>>, color: byte, p: nat)
    requires rows != [] && Echoes(t, rows, color) && p < StrLen(t.kb) && Typed(t.kb)[p] != SPACE
    ensures Displays(Press(t, color, NEWLINE).screen, Grown(rows, Typed(t.kb)) + [[]], color)
       <==> t.screen.x + StrLen(t.kb) < 2 * NUM_COLS
  {
    hide Press, StrLen, Typed, Window, Grown, CanvasCell;
    var s, s1, line := t.screen, Press(t, color, NEWLINE).screen, Typed(t.kb);
    if s.x + |line| < 2 * NUM_COLS {
      EnterDisplays(t, rows, color);
    } else if Displays(s1, Grown(rows, line) + [[]], color) {
      var top := |rows| + 1 - s1.y;
      EnterWindow(t, rows, color);
      GrownCell(rows, line, color, |rows| - 1 + (s.x + p) / NUM_COLS, (s.x + p) % NUM_COLS);
      EmptyRow(s1.cells, Grown(rows, line), color, top);
      TwoWindows(s1.cells, Grown(rows, line) + [[]], color, top, s1.y - 2 + (s.x + p) / NUM_COLS, (s.x + p) % NUM_COLS);
      InWindow(s1.cells, Grown(rows, line), color, top, s1.y - 2 + (s.x + p) / NUM_COLS, (s.x + p) % NUM_COLS);
    }
  }

  lemma InWindow(cells: seq<Cell>, rows: seq<seq<byte>>, color: byte, top: int, r: nat, c: nat)
    requires |cells| == CELLS && Window(cells, rows, color, top) && r < NUM_ROWS && c < NUM_COLS
    ensures At(cells, r, c) == CanvasCell(rows, color, top + r, c)
  {
  }

  /** The window itself is where printing would have left it unless the line ended in column 78 of the last row:
      then it is one row further down. */
  lemma EnterShowsIff(t: Term, rows: seq<seq<byte>>, color: byte)
    requires rows != [] && Echoes(t, rows, color) && t.screen.x + StrLen(t.kb) < 2 * NUM_COLS
    ensures Shows(Press(t, color, NEWLINE).screen, Grown(rows, Typed(t.kb)) + [[]], color)
       <==> !(t.screen.y == NUM_ROWS - 1 && t.screen.x + StrLen(t.kb) == NUM_COLS - 1)
  {
    hide Press, StrLen, Typed, Window, Grown, CanvasCell;
    EnterDisplays(t, rows, color);
    EnterWindow(t, rows, color);
    GrownCell(rows, Typed(t.kb), color, 0, 0);
  }

  // ---------- the transcript ----------

  /** What was printed and entered since the page began, and the line being typed. */
  datatype Page = Page(text: seq<byte>, line: seq<byte>)

  function Record(p: Page, e: Local): Page {
    match e
    case Print(c) => p.(text := p.text + [c])
    case Type(c) => if c == NEWLINE then Page(p.text + p.line + [NEWLINE], []) else p.(line := Edit(p.line, c))
    case Wipe => Page([], [])
    case Consumed => p
  }

  function RecordAll(p: Page, es: seq<Local>): Page
    decreases |es|
  {
    if es == [] then p else RecordAll(Record(p, es[0]), es[1..])
  }

  /** The terminal shows the page: its text on the canvas, its line behind it. */
  ghost predicate OnPage(t: Term, color: byte, p: Page) {
    && Sound(t) && Typed(t.kb) == p.line && Echoes(t, Rows(p.text), color)
    && forall i :: 0 <= i < |p.line| ==> !IsBreak(p.line[i])
  }

  /** Programs print between lines, the keyboard has no carriage return, echoes land on the screen, and Enter
      comes before a line's third row. */
  predicate Orderly(t: Term, e: Local)
    requires Sound(t)
  {
    match e
    case Print(_) => StrLen(t.kb) == 0
    case Type(c) =>
      && c != NUL && c != RETURN
      && (c == NEWLINE ==> t.screen.x + StrLen(t.kb) < 2 * NUM_COLS)
      && (match EchoIndex(t, c) case Some(i) => i < CELLS case None => true)
    case _ => true
  }

  predicate OrderlyAlong(t: Term, color: byte, es: seq<Local>)
    requires Sound(t)
    decreases |es|
  {
    es == [] || (Orderly(t, es[0]) && OrderlyAlong(StepLocal(t, color, es[0]), color, es[1..]))
  }

  lemma PrintOnPage(t: Term, color: byte, p: Page, c: byte)
    requires OnPage(t, color, p) && StrLen(t.kb) == 0
    ensures OnPage(StepLocal(t, color, Print(c)), color, Record(p, Print(c)))
  {
    hide StrLen, Displays, Echoes, Rows, Extend;
    var t1 := StepLocal(t, color, Print(c));
    EmptyLineEchoes(t, Rows(p.text), color);
    PutcDisplays(t.screen, Rows(p.text), color, c);
    RowsExtend(p.text, c);
    EmptyLineEchoes(t1, Rows(p.text + [c]), color);
  }

  lemma EnterOnPage(t: Term, color: byte, p: Page)
    requires OnPage(t, color, p) && t.screen.x + StrLen(t.kb) < 2 * NUM_COLS
    ensures OnPage(Press(t, color, NEWLINE), color, Record(p, Type(NEWLINE)))
  {
    var t1 := Press(t, color, NEWLINE);
    assert StrLen(t1.kb) == 0 by { LengthIs(t1.kb, 0); }
    hide StrLen, Displays, Echoes, Rows, Press;
    EnterDisplays(t, Rows(p.text), color);
    GrownIsRows(p.text, p.line);
    RowsExtend(p.text + p.line, NEWLINE);
    EmptyLineEchoes(t1, Rows(p.text + p.line + [NEWLINE]), color);
  }

  /** CTRL+L: every cell is blank, the cursor is in the corner, and the line is gone. */
  lemma WipeClears(t: Term, color: byte)
    requires Sound(t)
    ensures var t1 := StepLocal(t, color, Wipe);
      && t1.screen.x == 0 && t1.screen.y == 0 && Typed(t1.kb) == [] && t1.released == t.released
      && forall i :: 0 <= i < CELLS ==> t1.screen.cells[i] == Cell(SPACE, color)
  {
    LengthIs(StepLocal(t, color, Wipe).kb, 0);
  }

  lemma WipeOnPage(t: Term, color: byte)
    requires Sound(t)
    ensures OnPage(StepLocal(t, color, Wipe), color, Page([], []))
  {
    var t1 := StepLocal(t, color, Wipe);
    WipeClears(t, color);
    NoRows();
    hide StrLen, StepLocal, Rows;
    EmptyLineEchoes(t1, [[]], color);
  }

  lemma EditOnPage(t: Term, color: byte, p: Page, c: byte)
    requires OnPage(t, color, p) && EditKey(c) && c != RETURN
    requires EchoIndex(t, c).Some? ==> EchoIndex(t, c).value < CELLS
    ensures OnPage(Press(t, color, c), color, Record(p, Type(c)))
  {
    hide StrLen, Echoes, Rows, Press;
    EditKeepsEcho(t, Rows(p.text), color, c);
    KeyEdits(t, color, c);
  }

  /** A read changes nothing on the screen. */
  lemma ReadOnPage(t: Term, color: byte, p: Page)
    requires OnPage(t, color, p)
    ensures OnPage(StepLocal(t, color, Consumed), color, p)
  {
    hide Window, Grown, Rows;
  }

  /** One orderly event. */
  lemma StepOnPage(t: Term, color: byte, p: Page, e: Local)
    requires OnPage(t, color, p) && Orderly(t, e)
    ensures OnPage(StepLocal(t, color, e), color, Record(p, e))
  {
    hide StrLen, Echoes, Rows, Press, Putc, ClearTerm, Edit;
    match e
    case Print(c) => PrintOnPage(t, color, p, c);
    case Type(c) => if c == NEWLINE { EnterOnPage(t, color, p); } else { EditOnPage(t, color, p, c); }
    case Wipe => WipeOnPage(t, color);
    case Consumed => ReadOnPage(t, color, p);
  }

  /** A whole session: after any orderly events the terminal shows their transcript. */
  lemma {:induction false} SessionOnPage(t: Term, color: byte, p: Page, es: seq<Local>)
    requires OnPage(t, color, p) && OrderlyAlong(t, color, es)
    ensures OnPage(Replay(t, color, es), color, RecordAll(p, es))
    decreases |es|
  {
    hide Echoes, Rows, Orderly, StepLocal, Record;
    if es != [] {
      StepOnPage(t, color, p, es[0]);
      SessionOnPage(StepLocal(t, color, es[0]), color, Record(p, es[0]), es[1..]);
    }
  }

  /** Whatever the other terminals do meanwhile. */
  lemma SessionShowsTranscript(w: World, es: seq<Event>, t: nat, p: Page)
    requires Good(w) && Possible(w, es) && t < TERMS && (t == 0 ==> SpillsUnseen(w, es))
    requires OnPage(w.terms[t], Color(t), p)
    requires OrderlyAlong(w.terms[t], Color(t), AimedAt(Route(w.fg, w.task), es, t))
    ensures var page, term := RecordAll(p, AimedAt(Route(w.fg, w.task), es, t)), Run(w, es).terms[t];
      OnPage(term, Color(t), page) && (page.line == [] ==> Displays(term.screen, Rows(page.text), Color(t)))
  {
    hide Echoes, Rows, OrderlyAlong, Run, Possible, SpillsUnseen, Replay, RecordAll, AimedAt, Displays;
    var page := RecordAll(p, AimedAt(Route(w.fg, w.task), es, t));
    NonInterference(w, es, t);
    SessionOnPage(w.terms[t], Color(t), p, AimedAt(Route(w.fg, w.task), es, t));
    if page.line == [] {
      EmptyLineEchoes(Run(w, es).terms[t], Rows(page.text), Color(t));
    }
  }

  /** At start-up every terminal shows the empty page, each in its own colour. */
  lemma BootOnPage(t: nat)
    requires t < TERMS
    ensures OnPage(Boot().terms[t], Color(t), Page([], [])) && !Boot().terms[t].released
    ensures Color(t) == [0x7, 0xA, 0xC][t]
  {
    var term := Boot().terms[t];
    LengthIs(term.kb, 0);
    NoRows();
    hide StrLen, Rows;
    EmptyLineEchoes(term, [[]], Color(t));
  }

  /** Orderly, as far as a user and the programs can see to it: programs print between lines, and lines start in
      the first 33 columns. */
  predicate Tidy(t: Term, e: Local)
    requires Sound(t)
  {
    match e
    case Print(_) => StrLen(t.kb) == 0
    case Type(c) => c != NUL && c != RETURN && t.screen.x <= 32
    case _ => true
  }

  predicate TidyAlong(t: Term, color: byte, es: seq<Local>)
    requires Sound(t)
    decreases |es|
  {
    es == [] || (Tidy(t, es[0]) && TidyAlong(StepLocal(t, color, es[0]), color, es[1..]))
  }

  lemma TidyIsOrderly(t: Term, color: byte, p: Page, e: Local)
    requires OnPage(t, color, p) && Tidy(t, e)
    ensures Orderly(t, e)
  {
    hide FirstNul, Window, Grown, Rows;
  }

  /** Short prompts suffice: then no line, however it is edited, disturbs the screen. */
  lemma {:induction false} TidySessionsAreOrderly(t: Term, color: byte, p: Page, es: seq<Local>)
    requires OnPage(t, color, p) && TidyAlong(t, color, es)
    ensures OrderlyAlong(t, color, es)
    decreases |es|
  {
    hide Echoes, Rows, Orderly, Tidy, StepLocal, Record;
    if es != [] {
      TidyIsOrderly(t, color, p, es[0]);
      StepOnPage(t, color, p, es[0]);
      TidySessionsAreOrderly(StepLocal(t, color, es[0]), color, Record(p, es[0]), es[1..]);
    }
  }

  // ---------- after CTRL+L ----------

  lemma {:induction false} ReplayAppends(t: Term, color: byte, a: seq<Local>, b: seq<Local>)
    requires Sound(t)
    ensures Replay(t, color, a + b) == Replay(Replay(t, color, a), color, b)
    decreases |a|
  {
    hide StepLocal;
    if a == [] {
      assert a + b == b;
    } else {
      assert (a + b)[1..] == a[1..] + b;
      ReplayAppends(StepLocal(t, color, a[0]), color, a[1..], b);
    }
  }

  /** Whatever happened before, after CTRL+L the screen shows just what is printed from then on. */
  lemma OutputAfterWipe(w: World, es: seq<Event>, t: nat, before: seq<Local>, text: seq<byte>)
    requires Good(w) && Possible(w, es) && t < TERMS && (t == 0 ==> SpillsUnseen(w, es))
    requires AimedAt(Route(w.fg, w.task), es, t) == before + [Wipe] + Prints(text)
    ensures Shows(Run(w, es).terms[t].screen, Rows(text), Color(t))
  {
    hide Run, Possible, SpillsUnseen, AimedAt, PutAll, Shows, Press;
    NonInterference(w, es, t);
    ReplayAppends(w.terms[t], Color(t), before + [Wipe], Prints(text));
    ReplayAppends(w.terms[t], Color(t), before, [Wipe]);
    var wiped := Replay(w.terms[t], Color(t), before + [Wipe]);
    PrintsPut(wiped, Color(t), text);
    ScreenShowsCanvas(Color(t), text);
    WipedScreen(Replay(w.terms[t], Color(t), before), Color(t));
  }

  lemma WipedScreen(t: Term, color: byte)
    requires Sound(t)
    ensures Replay(t, color, [Wipe]).screen == Cleared(color)
  {
    assert Replay(t, color, [Wipe]) == StepLocal(t, color, Wipe);
  }
}
