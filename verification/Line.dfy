/**
 The keyboard's line buffers and the terminal they echo to (keyboard.c, terminal.c): what a key does
 to the buffer and the screen of the foreground terminal, and how a finished line reaches a reader.
 */
module Line {
  import opened Basics
  import opened Screen

  const KB_SIZE: nat := 128

  /** A key buffer: 128 bytes, the last of which stays NUL. */
  ghost predicate IsBuffer(b: seq<byte>) {
    |b| == KB_SIZE && b[KB_SIZE - 1] == NUL
  }

  /** The index of the first NUL at or after i (strlen when i is 0). */
  function FirstNul(b: seq<byte>, i: nat): (n: nat)
    requires i < |b| && Last(b) == NUL
    ensures i <= n < |b| && b[n] == NUL && forall j :: i <= j < n ==> b[j] != NUL
    decreases |b| - i
  {
    if b[i] == NUL then i else FirstNul(b, i + 1)
  }

  function StrLen(b: seq<byte>): (n: nat)
    requires b != [] && Last(b) == NUL
    ensures n < |b|
  {
    FirstNul(b, 0)
  }

  /** The text typed so far. */
  function Typed(b: seq<byte>): (line: seq<byte>)
    requires b != [] && Last(b) == NUL
    ensures |line| == StrLen(b) && NUL !in line
  {
    b[..StrLen(b)]
  }

  /** A terminal: its screen and cursor, its key buffer, and whether Enter has released a reader. */
  datatype Term = Term(screen: Screen, kb: seq<byte>, released: bool)

  ghost predicate Sound(t: Term) {
    Framed(t.screen) && IsBuffer(t.kb)
  }

  /** convert_to_vid_idx. */
  function VideoIndex(t: Term, length: nat): int {
    NUM_COLS * t.screen.y + t.screen.x + length
  }

  /** A write to video memory shows on the screen when it lands on it. */
  function Write(cells: seq<Cell>, i: int, cell: Cell): (r: seq<Cell>)
    ensures |r| == |cells|
  {
    if 0 <= i < |cells| then cells[i := cell] else cells
  }

  /** Erasing replaces the character and keeps the colour. */
  function Erase(cells: seq<Cell>, i: int): (r: seq<Cell>)
    ensures |r| == |cells|
  {
    if 0 <= i < |cells| then cells[i := cells[i].(ch := SPACE)] else cells
  }

  /** The screen after a character reached column 79 of the last row: one scroll, and the cursor row goes up. */
  function ScrolledUp(s: Screen, color: byte, y: int): (r: Screen)
    requires Framed(s) && 0 < y < NUM_ROWS
    ensures Framed(r)
  {
    Screen(Scrolled(s.cells, color), s.x, y - 1)
  }

  /** add_char_to_buf. */
  function AddChar(t: Term, color: byte, c: byte): (r: Term)
    requires Sound(t)
    ensures Sound(r)
  {
    var n, x, y := StrLen(t.kb), t.screen.x, t.screen.y;
    if n < KB_SIZE - 1 then
      var echoed :=
        if c == NEWLINE then
          var once := LineBreak(t.screen, color);
          if n + x >= NUM_COLS then LineBreak(once, color) else once
        else t.screen.(cells := Write(t.screen.cells, VideoIndex(t, n), Cell(c, color)));
      t.(kb := t.kb[n + 1 := NUL][n := c],
         screen := if y == NUM_ROWS - 1 && n + x == NUM_COLS - 1 then ScrolledUp(echoed, color, y) else echoed)
    else if c == NEWLINE then t.(screen := LineBreak(LineBreak(t.screen, color), color))
    else t
  }

  /** del_char_from_buf. */
  function DelChar(t: Term): (r: Term)
    requires Sound(t)
    ensures Sound(r)
  {
    var n := StrLen(t.kb);
    if n == 0 then t
    else t.(kb := t.kb[n - 1 := NUL], screen := t.screen.(cells := Erase(t.screen.cells, VideoIndex(t, n) - 1)))
  }

  /** The index of the first newline below n, or n. */
  function FirstNewline(b: seq<byte>, n: nat, i: nat): (k: nat)
    requires i <= n <= |b|
    ensures i <= k <= n && (k < n ==> b[k] == NEWLINE) && forall j :: i <= j < k ==> b[j] != NEWLINE
    decreases n - i
  {
    if i == n || b[i] == NEWLINE then i else FirstNewline(b, n, i + 1)
  }

  /** How much copy_kb_buf moves: up to and including the newline, or everything. */
  function Handed(kb: seq<byte>): (n: nat)
    ensures n <= |kb|
  {
    Min(FirstNewline(kb, |kb|, 0) + 1, |kb|)
  }

  /** copy_kb_buf, as seen by the intermediate buffer... */
  function HandOver(kb: seq<byte>, intBuf: seq<byte>): (r: seq<byte>)
    requires |kb| == |intBuf|
    ensures |r| == |intBuf|
  {
    kb[..Handed(kb)] + intBuf[Handed(kb)..]
  }

  /** ...and by the key buffer. */
  function Flushed(kb: seq<byte>): (r: seq<byte>)
    ensures |r| == |kb|
  {
    Repeat(NUL, Handed(kb)) + kb[Handed(kb)..]
  }

  /** A key in the foreground terminal: backspace, Enter or a character. */
  function Press(t: Term, color: byte, c: byte): (r: Term)
    requires Sound(t)
    ensures Sound(r)
  {
    if c == BACKSPACE then DelChar(t)
    else if c == NEWLINE then
      var added := AddChar(t, color, c);
      added.(kb := Flushed(added.kb), released := true)
    else AddChar(t, color, c)
  }

  /** CTRL+L. */
  function ClearTerm(t: Term, color: byte): (r: Term)
    requires Sound(t)
    ensures Sound(r)
  {
    t.(screen := Cleared(color), kb := t.kb[0 := NUL])
  }

  // ---------- terminal_read ----------

  function ReadLimit(nbytes: nat): nat {
    if nbytes < KB_SIZE then nbytes else KB_SIZE
  }

  /** The value terminal_read returns: where the newline is, or the limit when there is none below it. */
  function ReadCount(intBuf: seq<byte>, nbytes: nat): (n: nat)
    requires |intBuf| == KB_SIZE
    ensures n <= ReadLimit(nbytes)
  {
    FirstNewline(intBuf, ReadLimit(nbytes), 0)
  }

  /** The requests terminal_read serves inside its buffers: at least one byte, and a newline or room behind the
      limit. */
  ghost predicate Servable(intBuf: seq<byte>, nbytes: nat) {
    IsBuffer(intBuf) && nbytes > 0 && ReadCount(intBuf, nbytes) < KB_SIZE - 1
  }

  /** The reader's buffer afterwards: the copied bytes, and a newline at the limit. */
  function Received(intBuf: seq<byte>, nbytes: nat, dest: seq<byte>): (r: seq<byte>)
    requires |intBuf| == KB_SIZE && 0 < nbytes && ReadLimit(nbytes) <= |dest|
    ensures |r| == |dest|
  {
    var n, limit := ReadCount(intBuf, nbytes), ReadLimit(nbytes);
    var copied := Min(n + 1, limit);
    (intBuf[..copied] + dest[copied..])[limit - 1 := NEWLINE]
  }

  /** The intermediate buffer afterwards: the text behind the line moves to the front. */
  function Remaining(intBuf: seq<byte>, n: nat): (r: seq<byte>)
    requires IsBuffer(intBuf) && n < KB_SIZE - 1
    ensures IsBuffer(r)
  {
    var m := FirstNul(intBuf, n + 1) - (n + 1);
    seq(KB_SIZE, j requires 0 <= j < KB_SIZE =>
      if j < m then intBuf[n + 1 + j]
      else if j < n + 1 + m && j != n then NUL
      else intBuf[j])
  }
}
