/** One terminal's screen as a value, and what printing a character to it does (lib.c). */
module Screen {
  import opened Basics

  const NUM_COLS: nat := 80
  const NUM_ROWS: nat := 25
  const CELLS: nat := NUM_COLS * NUM_ROWS

  datatype Cell = Cell(ch: byte, attr: byte)

  datatype Screen = Screen(cells: seq<Cell>, x: int, y: int)

  predicate IsBreak(c: byte) {
    c == NEWLINE || c == RETURN
  }

  function Blank(color: byte): Cell {
    Cell(SPACE, color)
  }

  function BlankCells(n: nat, color: byte): (r: seq<Cell>)
    ensures |r| == n && forall i :: 0 <= i < n ==> r[i] == Blank(color)
  {
    seq(n, _ => Blank(color))
  }

  /** A full screen with the cursor on it. */
  ghost predicate Framed(s: Screen) {
    |s.cells| == CELLS && 0 <= s.x < NUM_COLS && 0 <= s.y < NUM_ROWS
  }

  /** The cell at row r and column c. */
  function At(cells: seq<Cell>, r: int, c: int): Cell
    requires |cells| == CELLS && 0 <= r < NUM_ROWS && 0 <= c < NUM_COLS
  {
    cells[NUM_COLS * r + c]
  }

  /** video_scroll: every row moves up by one and the last row is blanked. */
  function Scrolled(cells: seq<Cell>, color: byte): (r: seq<Cell>)
    requires |cells| == CELLS
    ensures |r| == CELLS
  {
    cells[NUM_COLS..] + BlankCells(NUM_COLS, color)
  }

  /** clear_screen. */
  function Cleared(color: byte): (s: Screen)
    ensures Framed(s)
  {
    Screen(BlankCells(CELLS, color), 0, 0)
  }

  /** A line break: scroll on the last row, else move down; the cursor goes to column 0. */
  function LineBreak(s: Screen, color: byte): (r: Screen)
    requires Framed(s)
    ensures Framed(r)
  {
    if s.y == NUM_ROWS - 1 then Screen(Scrolled(s.cells, color), 0, s.y)
    else Screen(s.cells, 0, s.y + 1)
  }

  /** putc. */
  function Putc(s: Screen, color: byte, c: byte): (r: Screen)
    requires Framed(s)
    ensures Framed(r)
  {
    if IsBreak(c) then LineBreak(s, color)
    else
      var written := s.cells[NUM_COLS * s.y + s.x := Cell(c, color)];
      if s.y == NUM_ROWS - 1 && s.x == NUM_COLS - 1 then Screen(Scrolled(written, color), 0, NUM_ROWS - 1)
      else
        var x := (s.x + 1) % NUM_COLS;
        var y := if x == 0 then s.y + 1 else s.y;
        Screen(written, x, (y + x / NUM_COLS) % NUM_ROWS)
  }

  function PutAll(s: Screen, color: byte, text: seq<byte>): (r: Screen)
    requires Framed(s)
    ensures Framed(r)
    decreases |text|
  {
    if text == [] then s else PutAll(Putc(s, color, text[0]), color, text[1..])
  }

  lemma {:induction false} PutAllAppends(s: Screen, color: byte, a: seq<byte>, b: seq<byte>)
    requires Framed(s)
    ensures PutAll(s, color, a + b) == PutAll(PutAll(s, color, a), color, b)
    decreases |a|
  {
    if a == [] {
      assert a + b == b;
    } else {
      assert (a + b)[1..] == a[1..] + b;
      PutAllAppends(Putc(s, color, a[0]), color, a[1..], b);
    }
  }
}
