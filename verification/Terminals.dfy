/**
 The terminals as the kernel stores them: video memory, a back buffer and a saved key buffer per
 terminal, the live key buffer, the intermediate buffer and the release flags. Each method is proved
 to do to the logical terminals what module World says.
 */
module Terminals {
  import opened Basics
  import opened Screen
  import opened Line
  import W = World

  /** term_t. */
  class TermRecord {
    const video: array<Cell>
    const kbBuf: array<byte>
    const color: byte
    var x: int
    var y: int

    constructor (color: byte)
      ensures fresh(video) && fresh(kbBuf) && video.Length == CELLS && kbBuf.Length == KB_SIZE
      ensures this.color == color && x == 0 && y == 0
      ensures video[..] == BlankCells(CELLS, color) && kbBuf[..] == Repeat(NUL, KB_SIZE)
    {
      video := new Cell[CELLS](_ => Blank(color));
      kbBuf := new byte[KB_SIZE](_ => NUL);
      this.color, x, y := color, 0, 0;
    }
  }

  // ---------- video memory ----------

  method Scroll(a: array<Cell>, color: byte)
    requires a.Length == CELLS
    modifies a
    ensures a[..] == Scrolled(old(a[..]), color)
  {
    ghost var was := a[..];
    var i := 0;
    while i < CELLS - NUM_COLS
      invariant 0 <= i <= CELLS - NUM_COLS
      invariant forall j :: 0 <= j < i ==> a[j] == was[j + NUM_COLS]
      invariant forall j :: i <= j < CELLS ==> a[j] == was[j]
    {
      a[i] := a[i + NUM_COLS];
      i := i + 1;
    }
    i := 0;
    while i < NUM_COLS
      invariant 0 <= i <= NUM_COLS
      invariant forall j :: 0 <= j < CELLS - NUM_COLS ==> a[j] == was[j + NUM_COLS]
      invariant forall j :: CELLS - NUM_COLS <= j < CELLS - NUM_COLS + i ==> a[j] == Blank(color)
    {
      a[NUM_COLS * (NUM_ROWS - 1) + i] := Blank(color);
      i := i + 1;
    }
    IsScrolled(a[..], was, color);
  }

  lemma IsScrolled(after: seq<Cell>, before: seq<Cell>, color: byte)
    requires |after| == |before| == CELLS
    requires forall j :: 0 <= j < CELLS - NUM_COLS ==> after[j] == before[j + NUM_COLS]
    requires forall j :: CELLS - NUM_COLS <= j < CELLS ==> after[j] == Blank(color)
    ensures after == Scrolled(before, color)
  {
  }

  method Fill<T>(a: array<T>, v: T)
    modifies a
    ensures forall i :: 0 <= i < a.Length ==> a[i] == v
  {
    var i := 0;
    while i < a.Length
      invariant 0 <= i <= a.Length
      invariant forall j :: 0 <= j < i ==> a[j] == v
    {
      a[i] := v;
      i := i + 1;
    }
  }

  method Copy<T>(dest: array<T>, src: array<T>)
    requires dest != src && dest.Length == src.Length
    modifies dest
    ensures dest[..] == src[..]
  {
    var i := 0;
    while i < dest.Length
      invariant 0 <= i <= dest.Length
      invariant forall j :: 0 <= j < i ==> dest[j] == src[j]
    {
      dest[i] := src[i];
      i := i + 1;
    }
  }

  ghost function ScreenOf(a: array<Cell>, r: TermRecord): Screen
    reads a, r
  {
    Screen(a[..], r.x, r.y)
  }

  /** put_newln_kb, and the line-break half of putc. */
  method BreakLine(a: array<Cell>, r: TermRecord)
    requires a.Length == CELLS && Framed(ScreenOf(a, r))
    modifies a, r
    ensures ScreenOf(a, r) == LineBreak(old(ScreenOf(a, r)), r.color)
  {
    if r.y == NUM_ROWS - 1 {
      Scroll(a, r.color);
      r.x := 0;
    } else {
      r.y := r.y + 1;
      r.x := 0;
    }
  }

  /** putc on the memory and record of one terminal. */
  method PutChar(a: array<Cell>, r: TermRecord, c: byte)
    requires a.Length == CELLS && Framed(ScreenOf(a, r))
    modifies a, r
    ensures ScreenOf(a, r) == Putc(old(ScreenOf(a, r)), r.color, c)
  {
    if c == NEWLINE || c == RETURN {
      BreakLine(a, r);
    } else {
      a[NUM_COLS * r.y + r.x] := Cell(c, r.color);
      if r.y == NUM_ROWS - 1 && r.x == NUM_COLS - 1 {
        Scroll(a, r.color);
        r.x := 0;
        r.y := NUM_ROWS - 1;
      } else {
        r.x := r.x + 1;
        r.x := r.x % NUM_COLS;
        if r.x == 0 {
          r.y := r.y + 1;
        }
        r.y := (r.y + r.x / NUM_COLS) % NUM_ROWS;
      }
    }
  }

  /** strlen of a key buffer. */
  method Length(b: array<byte>) returns (n: nat)
    requires IsBuffer(b[..])
    ensures n == StrLen(b[..])
  {
    n := 0;
    while b[n] != NUL
      invariant 0 <= n < b.Length && FirstNul(b[..], 0) == FirstNul(b[..], n)
      decreases b.Length - n
    {
      n := n + 1;
    }
  }

  /** The foreground terminal, with its buffer in kb and its screen in a. The flag is not at stake here. */
  ghost function TermOf(kb: array<byte>, a: array<Cell>, r: TermRecord): Term
    reads kb, a, r
  {
    Term(ScreenOf(a, r), kb[..], false)
  }

  /** A write to video memory at a cell index: on the screen, in the unused rest of its page, or behind it. */
  method Poke(a: array<Cell>, next: array<Cell>, i: nat, cell: Cell)
    requires a.Length == next.Length == CELLS && a != next && i < W.PAGE_CELLS + CELLS
    modifies a, next
    ensures a[..] == Write(old(a[..]), i, cell)
    ensures next[..] == if i >= W.PAGE_CELLS then Write(old(next[..]), i - W.PAGE_CELLS, cell) else old(next[..])
  {
    if i < CELLS {
      a[i] := cell;
    } else if i >= W.PAGE_CELLS {
      next[i - W.PAGE_CELLS] := cell;
    }
  }

  /** add_char_to_buf. */
  method AddCharTo(kb: array<byte>, a: array<Cell>, r: TermRecord, next: array<Cell>, c: byte)
    requires a.Length == next.Length == CELLS && a != next && c != BACKSPACE
    requires Sound(TermOf(kb, a, r))
    modifies kb, a, r, next
    ensures TermOf(kb, a, r) == AddChar(old(TermOf(kb, a, r)), r.color, c)
    ensures next[..] == W.Behind(old(TermOf(kb, a, r)), old(next[..]), r.color, c)
  {
    hide Scrolled, FirstNul;
    var n := Length(kb);
    var x, y := r.x, r.y;
    if n < KB_SIZE - 1 {
      kb[n + 1] := NUL;
      kb[n] := c;
      if c == NEWLINE {
        BreakLine(a, r);
        if n + x >= NUM_COLS {
          BreakLine(a, r);
        }
      } else {
        Poke(a, next, NUM_COLS * y + x + n, Cell(c, r.color));
      }
      if y == NUM_ROWS - 1 && n + x == NUM_COLS - 1 {
        Scroll(a, r.color);
        r.y := y - 1;
      }
    } else if c == NEWLINE {
      BreakLine(a, r);
      BreakLine(a, r);
    }
  }

  /** del_char_from_buf. */
  method DelCharFrom(kb: array<byte>, a: array<Cell>, r: TermRecord, next: array<Cell>)
    requires a.Length == next.Length == CELLS && a != next
    requires Sound(TermOf(kb, a, r))
    modifies kb, a, next
    ensures TermOf(kb, a, r) == DelChar(old(TermOf(kb, a, r)))
    ensures next[..] == W.Behind(old(TermOf(kb, a, r)), old(next[..]), r.color, BACKSPACE)
  {
    var n := Length(kb);
    if n > 0 {
      kb[n - 1] := NUL;
      var i := NUM_COLS * r.y + r.x + n - 1;
      if i < CELLS {
        a[i] := a[i].(ch := SPACE);
      } else if i >= W.PAGE_CELLS {
        next[i - W.PAGE_CELLS] := next[i - W.PAGE_CELLS].(ch := SPACE);
      }
    }
  }

  lemma NewlineStep(b: seq<byte>, n: nat, i: nat)
    requires i < n <= |b|
    ensures FirstNewline(b, n, i) == if b[i] == NEWLINE then i else FirstNewline(b, n, i + 1)
  {
  }

  lemma NulStep(b: seq<byte>, i: nat)
    requires i < |b| && Last(b) == NUL
    ensures FirstNul(b, i) == if b[i] == NUL then i else FirstNul(b, i + 1)
  {
  }

  /** copy_kb_buf. */
  method HandOverBuffer(kb: array<byte>, intBuf: array<byte>)
    requires kb != intBuf && kb.Length == intBuf.Length == KB_SIZE
    modifies kb, intBuf
    ensures kb[..] == Flushed(old(kb[..])) && intBuf[..] == HandOver(old(kb[..]), old(intBuf[..]))
  {
    hide FirstNewline;
    ghost var line, before := kb[..], intBuf[..];
    var i := 0;
    while i < KB_SIZE
      invariant 0 <= i <= KB_SIZE
      invariant FirstNewline(line, KB_SIZE, 0) == FirstNewline(line, KB_SIZE, i)
      invariant forall j :: 0 <= j < i ==> kb[j] == NUL && intBuf[j] == line[j]
      invariant forall j :: i <= j < KB_SIZE ==> kb[j] == line[j] && intBuf[j] == before[j]
    {
      NewlineStep(line, KB_SIZE, i);
      intBuf[i] := kb[i];
      if kb[i] == NEWLINE {
        kb[i] := NUL;
        return;
      } else {
        kb[i] := NUL;
      }
      i := i + 1;
    }
  }

  /** The loops of terminal_read: copy up to the newline, end the reader's buffer, close up the rest. */
  method TakeLine(source: array<byte>, dest: array<byte>, nbytes: nat) returns (n: nat)
    requires source != dest && Servable(source[..], nbytes) && ReadLimit(nbytes) <= dest.Length
    modifies source, dest
    ensures n == ReadCount(old(source[..]), nbytes)
    ensures dest[..] == Received(old(source[..]), nbytes, old(dest[..]))
    ensures source[..] == Remaining(old(source[..]), n)
  {
    hide FirstNewline, Remaining;
    ghost var before := source[..];
    n := CopyLine(source, dest, ReadLimit(nbytes));
    dest[ReadLimit(nbytes) - 1] := NEWLINE;
    CloseUp(source, n, before);
  }

  /** The first loop of terminal_read: a line's bytes leave the source, its newline is copied but stays. */
  method CopyLine(source: array<byte>, dest: array<byte>, limit: nat) returns (n: nat)
    requires source != dest && limit <= source.Length && limit <= dest.Length
    modifies source, dest
    ensures n == FirstNewline(old(source[..]), limit, 0)
    ensures source[..] == Repeat(NUL, n) + old(source[n..])
    ensures dest[..] == old(source[..Min(n + 1, limit)]) + old(dest[Min(n + 1, limit)..])
  {
    hide FirstNewline;
    ghost var line, before := source[..], dest[..];
    var i := 0;
    while i < limit
      invariant 0 <= i <= limit
      invariant FirstNewline(line, limit, 0) == FirstNewline(line, limit, i)
      invariant forall j :: 0 <= j < i ==> source[j] == NUL && dest[j] == line[j]
      invariant forall j :: i <= j < source.Length ==> source[j] == line[j]
      invariant forall j :: i <= j < dest.Length ==> dest[j] == before[j]
    {
      NewlineStep(line, limit, i);
      dest[i] := source[i];
      if source[i] == NEWLINE {
        return i;
      } else {
        source[i] := NUL;
      }
      i := i + 1;
    }
    return i;
  }

  /** The shift at the end of terminal_read: the text behind position n moves to the front. */
  method CloseUp(source: array<byte>, n: nat, ghost before: seq<byte>)
    requires IsBuffer(before) && n < KB_SIZE - 1 && source.Length == KB_SIZE
    requires forall j :: 0 <= j < n ==> source[j] == NUL
    requires forall j :: n <= j < KB_SIZE ==> source[j] == before[j]
    modifies source
    ensures source[..] == Remaining(before, n)
  {
    hide FirstNul, Remaining, Shifted;
    var i, c := n + 1, 0;
    NotShifted(source[..], before, n);
    while source[i] != NUL
      invariant n + 1 <= i < KB_SIZE && c == i - (n + 1)
      invariant FirstNul(before, n + 1) == FirstNul(before, i)
      invariant source[i] == before[i] && Shifted(source[..], before, n, i)
      decreases KB_SIZE - i
    {
      NulStep(before, i);
      ShiftStep(source[..], before, n, i);
      source[c] := source[i];
      source[i] := NUL;
      c := c + 1;
      i := i + 1;
    }
    NulStep(before, i);
    IsRemaining(before, n, i, source[..]);
  }

  /** The text from n + 1 up to i has moved to the front; NULs took its place, except at n. */
  ghost predicate Shifted(now: seq<byte>, before: seq<byte>, n: nat, i: nat)
    requires |now| == |before| == KB_SIZE && n < i < KB_SIZE
  {
    && (forall j :: 0 <= j < i - n - 1 ==> now[j] == before[n + 1 + j])
    && (forall j :: i - n - 1 <= j < i && j != n ==> now[j] == NUL)
    && (i - n - 1 <= n ==> now[n] == before[n])
    && (forall j :: i <= j < KB_SIZE ==> now[j] == before[j])
  }

  lemma NotShifted(now: seq<byte>, before: seq<byte>, n: nat)
    requires |now| == |before| == KB_SIZE && n < KB_SIZE - 1
    requires forall j :: 0 <= j < n ==> now[j] == NUL
    requires forall j :: n <= j < KB_SIZE ==> now[j] == before[j]
    ensures Shifted(now, before, n, n + 1)
  {
  }

  lemma ShiftStep(now: seq<byte>, before: seq<byte>, n: nat, i: nat)
    requires |now| == |before| == KB_SIZE && n < i < KB_SIZE && Shifted(now, before, n, i)
    requires before[i] != NUL && before[KB_SIZE - 1] == NUL
    ensures i + 1 < KB_SIZE && now[i] == before[i]
    ensures var after := now[i - n - 1 := now[i]][i := NUL];
      after[i + 1] == before[i + 1] && Shifted(after, before, n, i + 1)
  {
  }

  lemma IsRemaining(before: seq<byte>, n: nat, i: nat, after: seq<byte>)
    requires IsBuffer(before) && n < KB_SIZE - 1 && i == FirstNul(before, n + 1) && |after| == KB_SIZE
    requires Shifted(after, before, n, i)
    ensures after == Remaining(before, n)
  {
    hide FirstNul;
  }

  class Terminals {
    const screen: array<Cell>   // VIDEO
    const table: seq<TermRecord>
    const kbBuf: array<byte>
    const intBuf: array<byte>
    const released: array<bool>
    var activeTerminal: nat
    var activeTask: nat

    /** A terminal's record at start-up. */
    static ghost predicate Fresh(r: TermRecord, t: nat)
      requires t < W.TERMS
      reads r, r.video, r.kbBuf
    {
      && r.x == 0 && r.y == 0 && r.color == W.Color(t)
      && r.video[..] == BlankCells(CELLS, r.color) && r.kbBuf[..] == Repeat(NUL, KB_SIZE)
    }

    /** multi_term_init, kb_init and the first clear_screen, over three records. */
    constructor (records: seq<TermRecord>)
      requires |records| == W.TERMS && forall t :: 0 <= t < W.TERMS ==> Fresh(records[t], t)
      requires forall t, u :: 0 <= t < u < W.TERMS ==>
        records[t] != records[u] && records[t].video != records[u].video && records[t].kbBuf != records[u].kbBuf
      ensures Valid() && Abs() == W.Boot() && table == records
    {
      table := records;
      screen := new Cell[CELLS](_ => Blank(W.Color(0)));
      kbBuf := new byte[KB_SIZE](_ => NUL);
      intBuf := new byte[KB_SIZE](_ => NUL);
      released := new bool[W.TERMS](_ => false);
      activeTerminal, activeTask := 0, 0;
      new;
      hide Valid, Abs, W.Good, Sound, Blank;
      assert screen[..] == BlankCells(CELLS, W.Color(0));
      assert kbBuf[..] == Repeat(NUL, KB_SIZE) && intBuf[..] == Repeat(NUL, KB_SIZE);
      forall t | 0 <= t < W.TERMS
        ensures table[t].video.Length == CELLS && table[t].kbBuf.Length == KB_SIZE && table[t].color == W.Color(t)
      {
        assert Fresh(table[t], t) && |table[t].video[..]| == CELLS && |table[t].kbBuf[..]| == KB_SIZE;
      }
      forall t | 0 <= t < W.TERMS ensures W.Boot().terms[t] == Logical(t) {
        assert Fresh(table[t], t);
      }
      AbsIs(W.Boot());
    }

    ghost predicate Separate() {
      && |table| == W.TERMS && screen.Length == CELLS && released.Length == W.TERMS
      && kbBuf.Length == KB_SIZE && intBuf.Length == KB_SIZE && kbBuf != intBuf
      && (forall t :: 0 <= t < W.TERMS ==>
            && table[t].video.Length == CELLS && table[t].video != screen
            && table[t].kbBuf.Length == KB_SIZE && table[t].kbBuf != kbBuf && table[t].kbBuf != intBuf
            && table[t].color == W.Color(t))
      && (forall t, u :: 0 <= t < u < W.TERMS ==>
            table[t] != table[u] && table[t].video != table[u].video && table[t].kbBuf != table[u].kbBuf)
    }

    ghost function Videos(): set<array<Cell>> {
      set r: TermRecord | r in table :: r.video
    }

    ghost function Buffers(): set<array<byte>> {
      set r: TermRecord | r in table :: r.kbBuf
    }

    /** A buffer of the caller's, not one of the terminals'. */
    ghost predicate Foreign(buf: array<byte>) {
      buf !in Buffers() && buf != kbBuf && buf != intBuf
    }

    /** The memory that holds terminal t's screen: video memory in the foreground, else its own buffer. */
    ghost function Memory(t: nat): array<Cell>
      reads `activeTerminal
      requires Separate() && t < W.TERMS
    {
      if t == activeTerminal then screen else table[t].video
    }

    ghost function KeyMemory(t: nat): array<byte>
      reads `activeTerminal
      requires Separate() && t < W.TERMS
    {
      if t == activeTerminal then kbBuf else table[t].kbBuf
    }

    /** Terminal t as its user knows it. */
    ghost function Logical(t: nat): Term
      reads this, Memory(t), KeyMemory(t), table[t], released
      requires Separate() && t < W.TERMS
    {
      Term(ScreenOf(Memory(t), table[t]), KeyMemory(t)[..], released[t])
    }

    ghost predicate Valid()
      reads this, screen, kbBuf, intBuf, released, table, Videos(), Buffers()
    {
      && Separate() && activeTerminal < W.TERMS && activeTask < W.TERMS && IsBuffer(intBuf[..])
      && forall t :: 0 <= t < W.TERMS ==> Sound(Logical(t))
    }

    ghost function Abs(): W.World
      reads this, screen, kbBuf, intBuf, released, table, Videos(), Buffers()
      requires Valid()
    {
      W.World([Logical(0), Logical(1), Logical(2)], intBuf[..], activeTerminal, activeTask)
    }

    /** The abstraction, terminal by terminal. */
    lemma AbsIsGood()
      requires Valid()
      ensures W.Good(Abs())
      ensures forall t :: 0 <= t < W.TERMS ==> Abs().terms[t] == Logical(t)
    {
    }

    /** The abstraction is a given good world when each of its parts is. */
    lemma AbsIs(w: W.World)
      requires Separate() && W.Good(w)
      requires forall t :: 0 <= t < W.TERMS ==> w.terms[t] == Logical(t)
      requires w.intBuf == intBuf[..] && w.fg == activeTerminal && w.task == activeTask
      ensures Valid() && Abs() == w
    {
      assert forall t :: 0 <= t < W.TERMS ==> Sound(w.terms[t]);
      assert Abs().terms == w.terms;
    }

    /** get_video_mem. */
    method VideoMem(t: nat) returns (a: array<Cell>)
      requires Separate() && t < W.TERMS
      ensures a == Memory(t)
    {
      if t == activeTerminal {
        return screen;
      }
      return table[t].video;
    }

    /** A printed character in the storage of the terminals. */
    method PutField(c: byte)
      requires Separate() && activeTask < W.TERMS && Framed(Logical(activeTask).screen)
      modifies screen, table, Videos()
      ensures Framed(old(Logical(activeTask).screen))
      ensures Logical(activeTask) == old(Logical(activeTask)).(
        screen := Putc(old(Logical(activeTask).screen), W.Color(activeTask), c))
      ensures forall t :: 0 <= t < W.TERMS && t != activeTask ==> Logical(t) == old(Logical(t))
    {
      hide Framed;
      var a := VideoMem(activeTask);
      PutChar(a, table[activeTask], c);
    }

    /** putc of the active task. */
    method PutOut(c: byte)
      requires Valid()
      modifies screen, table, Videos()
      ensures Valid() && W.Good(old(Abs())) && Abs() == W.Step(old(Abs()), W.Put(c))
    {
      AbsIsGood();
      ghost var w := W.Step(Abs(), W.Put(c));
      W.PutParts(Abs(), c);
      assert Framed(Logical(activeTask).screen);
      hide Sound, W.Step, W.Good, Framed;
      PutField(c);
      AbsIs(w);
    }

    /** The loop of terminal_write: everything, or for a text file up to and including the first NUL. */
    method WriteOut(isText: bool, buf: array<byte>, nbytes: nat) returns (n: nat)
      requires Valid() && nbytes <= buf.Length && Foreign(buf)
      modifies screen, table, Videos()
      ensures Valid() && W.Good(old(Abs()))
      ensures n <= nbytes && buf[..n] == W.Shown(old(buf[..nbytes]), isText)
      ensures Abs() == W.PutText(old(Abs()), W.Shown(old(buf[..nbytes]), isText))
    {
      hide Abs, Valid, Separate, Foreign, Videos, Buffers, W.PutText, W.Shown, W.Good, W.Step;
      AbsIsGood();
      ghost var w, text := Abs(), buf[..nbytes];
      n := 0;
      W.PutTextOfNothing(w);
      assert buf[..0] == [];
      while n < nbytes
        invariant 0 <= n <= nbytes && buf[..nbytes] == text
        invariant Valid() && Abs() == W.PutText(w, text[..n])
        invariant isText ==> NUL !in text[..n]
      {
        W.PutTextThenPut(w, text[..n], buf[n]);
        assert text[..n + 1] == text[..n] + [text[n]];
        PutOut(buf[n]);
        n := n + 1;
        if isText && buf[n - 1] == NUL {
          W.ShownToNul(text, n - 1);
          return;
        }
      }
      assert text[..n] == text;
      W.ShownAll(text, isText);
    }

    /** terminal_write of the active task; -1 for a missing buffer or a negative count. */
    method TerminalWrite(isText: bool, buf: array?<byte>, nbytes: int) returns (n: int)
      requires Valid() && (buf != null && nbytes >= 0 ==> nbytes <= buf.Length && Foreign(buf))
      modifies screen, table, Videos()
      ensures Valid() && W.Good(old(Abs()))
      ensures buf == null || nbytes < 0 ==> n == -1 && Abs() == old(Abs())
      ensures buf != null && nbytes >= 0 ==>
        var shown := W.Shown(old(buf[..nbytes]), isText);
        0 <= n <= nbytes && buf[..n] == shown && Abs() == W.PutText(old(Abs()), shown)
    {
      hide Abs, Valid, Foreign, W.PutText, W.Shown, W.Good;
      AbsIsGood();
      if buf == null || nbytes < 0 {
        return -1;
      }
      n := WriteOut(isText, buf, nbytes);
    }

    /** CTRL+L in the storage of the terminals. */
    method ClearField()
      requires Separate() && activeTerminal < W.TERMS && Sound(Logical(activeTerminal))
      modifies screen, kbBuf, table
      ensures Sound(old(Logical(activeTerminal)))
      ensures Logical(activeTerminal) == ClearTerm(old(Logical(activeTerminal)), W.Color(activeTerminal))
      ensures forall t :: 0 <= t < W.TERMS && t != activeTerminal ==> Logical(t) == old(Logical(t))
    {
      var r := table[activeTerminal];
      Fill(screen, Blank(r.color));
      r.y := 0;
      r.x := 0;
      kbBuf[0] := NUL;
      assert screen[..] == BlankCells(CELLS, r.color);
    }

    /** clear_screen and the key buffer reset of CTRL+L. */
    method ClearScreen()
      requires Valid()
      modifies screen, kbBuf, table
      ensures Valid() && W.Good(old(Abs())) && Abs() == W.Step(old(Abs()), W.ClearKey)
    {
      hide Sound, W.Step, W.Good, ClearTerm;
      AbsIsGood();
      ghost var w := W.Step(Abs(), W.ClearKey);
      W.ClearParts(Abs());
      ClearField();
      AbsIs(w);
    }

    /** switch_terminal: every terminal keeps its screen, cursor and key buffer; only the foreground changes. */
    method SwitchTerminal(t: nat)
      requires Valid()
      modifies `activeTerminal, screen, kbBuf, Videos(), Buffers()
      ensures Valid() && W.Good(old(Abs())) && Abs() == W.Step(old(Abs()), W.Switch(t))
    {
      AbsIsGood();
      if t >= W.TERMS || t == activeTerminal {
        return;
      }
      ghost var w := W.Step(Abs(), W.Switch(t));
      Stash();
      Load(t);
      AbsIs(w);
    }

    /** Save video memory and the key buffer for the terminal that goes to the background. */
    method Stash()
      requires Valid()
      modifies table[activeTerminal].video, table[activeTerminal].kbBuf
      ensures Valid()
      ensures table[activeTerminal].video[..] == screen[..] && table[activeTerminal].kbBuf[..] == kbBuf[..]
      ensures forall t :: 0 <= t < W.TERMS ==> Logical(t) == old(Logical(t))
    {
      var fg := table[activeTerminal];
      Copy(fg.video, screen);
      Copy(fg.kbBuf, kbBuf);
    }

    /** Bring terminal t to the foreground, given that the old foreground's state is stashed. */
    method Load(t: nat)
      requires Valid() && t < W.TERMS && t != activeTerminal
      requires table[activeTerminal].video[..] == screen[..] && table[activeTerminal].kbBuf[..] == kbBuf[..]
      modifies `activeTerminal, screen, kbBuf
      ensures Valid() && activeTerminal == t
      ensures forall u :: 0 <= u < W.TERMS ==> Logical(u) == old(Logical(u))
    {
      hide Sound;
      Fill(kbBuf, NUL);
      Fill(screen, Cell(SPACE, SPACE));
      Copy(screen, table[t].video);
      Copy(kbBuf, table[t].kbBuf);
      activeTerminal := t;
      assert forall u :: 0 <= u < W.TERMS ==> old(Sound(Logical(u))) && Logical(u) == old(Logical(u));
    }

    /** set_active_task. */
    method SetActiveTask(t: nat)
      requires Valid() && t < W.TERMS
      modifies `activeTask
      ensures Valid() && W.Good(old(Abs())) && Abs() == W.Step(old(Abs()), W.Dispatch(t))
    {
      AbsIsGood();
      ghost var w := W.Step(Abs(), W.Dispatch(t));
      activeTask := t;
      AbsIs(w);
    }

    /** A read in the storage of the terminals. */
    method ReadField(dest: array<byte>, nbytes: nat) returns (n: nat)
      requires Separate() && activeTask < W.TERMS && Foreign(dest)
      requires Servable(intBuf[..], nbytes) && ReadLimit(nbytes) <= dest.Length
      modifies intBuf, released, dest
      ensures n == ReadCount(old(intBuf[..]), nbytes) && n < KB_SIZE - 1
      ensures dest[..] == Received(old(intBuf[..]), nbytes, old(dest[..]))
      ensures IsBuffer(old(intBuf[..])) && intBuf[..] == Remaining(old(intBuf[..]), n)
      ensures Logical(activeTask) == old(Logical(activeTask)).(released := false)
      ensures forall t :: 0 <= t < W.TERMS && t != activeTask ==> Logical(t) == old(Logical(t))
    {
      hide ReadCount, Received, Remaining;
      n := TakeLine(intBuf, dest, nbytes);
      released[activeTask] := false;
    }

    /** The rest of terminal_read, once the Enter flag is set. */
    method Receive(dest: array<byte>, nbytes: nat) returns (n: nat)
      requires Valid() && Foreign(dest) && ReadLimit(nbytes) <= dest.Length
      requires W.Good(Abs()) && W.Allowed(Abs(), W.Read(nbytes))
      modifies intBuf, released, dest
      ensures Valid() && Abs() == W.Step(old(Abs()), W.Read(nbytes))
      ensures n == ReadCount(old(intBuf[..]), nbytes)
      ensures dest[..] == Received(old(intBuf[..]), nbytes, old(dest[..]))
    {
      AbsIsGood();
      ghost var w := W.Step(Abs(), W.Read(nbytes));
      W.ReadParts(Abs(), nbytes);
      assert Servable(intBuf[..], nbytes);
      hide Sound, W.Step, W.Good, Remaining, ReadCount, Received, Servable, ReadLimit, IsBuffer;
      n := ReadField(dest, nbytes);
      AbsIs(w);
    }

    /** terminal_read of the active task, with its Enter flag set; -1 for a missing buffer or a negative count. */
    method TerminalRead(dest: array?<byte>, nbytes: int) returns (n: int)
      requires Valid()
      requires dest != null && nbytes >= 0 ==>
        Foreign(dest) && ReadLimit(nbytes) <= dest.Length && W.Good(Abs()) && W.Allowed(Abs(), W.Read(nbytes))
      modifies intBuf, released, if dest == null then {} else {dest}
      ensures Valid()
      ensures dest == null || nbytes < 0 ==>
        n == -1 && Abs() == old(Abs()) && (dest != null ==> dest[..] == old(dest[..]))
      ensures dest != null && nbytes >= 0 ==>
        && Abs() == W.Step(old(Abs()), W.Read(nbytes))
        && n == ReadCount(old(intBuf[..]), nbytes) && dest[..] == Received(old(intBuf[..]), nbytes, old(dest[..]))
    {
      if dest == null || nbytes < 0 {
        return -1;
      }
      n := Receive(dest, nbytes);
    }

    /** When a key wrote to the foreground terminal and behind the video page only, the others are as KeyParts says. */
    twostate lemma OthersAfterKey()
      requires Separate() && activeTerminal < W.TERMS && activeTerminal == old(activeTerminal)
      requires forall t :: 0 <= t < W.TERMS && t != activeTerminal ==>
        unchanged(table[t]) && unchanged(table[t].kbBuf) && released[t] == old(released[t])
      requires unchanged(table[1].video) && unchanged(table[2].video)
      ensures forall t :: 0 < t < W.TERMS && t != activeTerminal ==> Logical(t) == old(Logical(t))
      ensures activeTerminal != 0 ==> Logical(0) == W.OnScreen(old(Logical(0)), table[0].video[..])
    {
    }

    /** The logical foreground terminal is what AddCharTo and DelCharFrom work on, up to the release flag. */
    lemma Foreground()
      requires Separate() && activeTerminal < W.TERMS
      ensures var t := activeTerminal;
        Logical(t) == TermOf(kbBuf, screen, table[t]).(released := released[t])
    {
    }

    /** What a key does to the storage of the foreground terminal and to what lies behind video memory. */
    method EditFields(c: byte)
      requires Separate() && activeTerminal < W.TERMS && Sound(TermOf(kbBuf, screen, table[activeTerminal]))
      modifies screen, kbBuf, table[activeTerminal], table[0].video
      ensures var r, t := table[activeTerminal], old(TermOf(kbBuf, screen, table[activeTerminal]));
        && TermOf(kbBuf, screen, r) == (if c == BACKSPACE then DelChar(t) else AddChar(t, r.color, c))
        && table[0].video[..] == W.Behind(t, old(table[0].video[..]), r.color, c)
      ensures forall t :: 0 < t < W.TERMS && t != activeTerminal ==> Logical(t) == old(Logical(t))
      ensures activeTerminal != 0 ==> Logical(0) == W.OnScreen(old(Logical(0)), table[0].video[..])
    {
      hide Sound, DelChar, AddChar, W.Behind;
      var r := table[activeTerminal];
      if c == BACKSPACE {
        DelCharFrom(kbBuf, screen, r, table[0].video);
      } else {
        AddCharTo(kbBuf, screen, r, table[0].video, c);
      }
      OthersAfterKey();
    }

    /** What the calls below know before a key: the world it leads to, part by part. */
    ghost method BeforeKey(c: byte) returns (w1: W.World)
      requires Valid() && c != NUL
      ensures W.Good(Abs()) && W.Good(w1) && w1 == W.Step(Abs(), W.Key(c))
      ensures w1.fg == activeTerminal && w1.task == activeTask
      ensures var t, r := TermOf(kbBuf, screen, table[activeTerminal]), table[activeTerminal];
        && Sound(t)
        && w1.terms[w1.fg] == (
             if c == BACKSPACE then DelChar(t).(released := released[w1.fg])
             else if c == NEWLINE then
               AddChar(t, r.color, c).(kb := Flushed(AddChar(t, r.color, c).kb), released := true)
             else AddChar(t, r.color, c).(released := released[w1.fg]))
        && w1.intBuf == (if c == NEWLINE then HandOver(AddChar(t, r.color, c).kb, intBuf[..]) else intBuf[..])
        && (w1.fg != 0 ==>
              w1.terms[0] == W.OnScreen(Logical(0), W.Behind(t, table[0].video[..], r.color, c)))
        && (forall u :: 0 < u < W.TERMS && u != w1.fg ==> w1.terms[u] == Logical(u))
    {
      AbsIsGood();
      var t := TermOf(kbBuf, screen, table[activeTerminal]);
      assert Sound(Logical(activeTerminal));
      w1 := W.Step(Abs(), W.Key(c));
      W.KeyParts(Abs(), c);
      FlagIsIdle(Logical(activeTerminal), t, table[activeTerminal].color, c);
      hide DelChar, AddChar, W.Behind, W.Step;
    }

    /** kb_int_handler for backspace and characters: del_char_from_buf or add_char_to_buf. */
    method EditKey(c: byte)
      requires Valid() && c != NUL && c != NEWLINE
      modifies screen, kbBuf, table[activeTerminal], table[0].video
      ensures Valid() && W.Good(old(Abs())) && Abs() == W.Step(old(Abs()), W.Key(c))
    {
      hide Sound, W.Step, W.Behind, W.Good, DelChar, AddChar;
      ghost var w1 := BeforeKey(c);
      EditFields(c);
      Foreground();
      AbsIs(w1);
    }

    /** The last steps of Enter: copy_kb_buf and the release flag. */
    method Finish()
      requires Separate() && activeTerminal < W.TERMS
      modifies kbBuf, intBuf, released
      ensures kbBuf[..] == Flushed(old(kbBuf[..])) && intBuf[..] == HandOver(old(kbBuf[..]), old(intBuf[..]))
      ensures released[activeTerminal]
      ensures ScreenOf(screen, table[activeTerminal]) == old(ScreenOf(screen, table[activeTerminal]))
      ensures forall t :: 0 <= t < W.TERMS && t != activeTerminal ==> Logical(t) == old(Logical(t))
    {
      released[activeTerminal] := true;
      HandOverBuffer(kbBuf, intBuf);
    }

    /** What Enter does to the storage. */
    method EnterFields()
      requires Separate() && activeTerminal < W.TERMS && Sound(TermOf(kbBuf, screen, table[activeTerminal]))
      modifies screen, kbBuf, intBuf, released, table[activeTerminal], table[0].video
      ensures var r, t := table[activeTerminal], old(TermOf(kbBuf, screen, table[activeTerminal]));
        var added := AddChar(t, r.color, NEWLINE);
        && TermOf(kbBuf, screen, r) == added.(kb := Flushed(added.kb)) && released[activeTerminal]
        && intBuf[..] == HandOver(added.kb, old(intBuf[..]))
        && table[0].video[..] == W.Behind(t, old(table[0].video[..]), r.color, NEWLINE)
      ensures forall t :: 0 < t < W.TERMS && t != activeTerminal ==> Logical(t) == old(Logical(t))
      ensures activeTerminal != 0 ==> Logical(0) == W.OnScreen(old(Logical(0)), table[0].video[..])
    {
      hide Sound, W.Behind, AddChar, HandOver, Flushed;
      EditFields(NEWLINE);
      Finish();
    }

    /** kb_int_handler for Enter: add the newline, hand the line over, release the reader. */
    method EnterKey()
      requires Valid()
      modifies screen, kbBuf, intBuf, released, table[activeTerminal], table[0].video
      ensures Valid() && W.Good(old(Abs())) && Abs() == W.Step(old(Abs()), W.Key(NEWLINE))
    {
      hide Sound, W.Step, W.Behind, W.Good, DelChar, AddChar;
      ghost var w1 := BeforeKey(NEWLINE);
      EnterFields();
      Foreground();
      AbsIs(w1);
    }

    method HandleKey(c: byte)
      requires Valid() && c != NUL
      modifies screen, kbBuf, intBuf, released, table[activeTerminal], table[0].video
      ensures Valid() && W.Good(old(Abs())) && Abs() == W.Step(old(Abs()), W.Key(c))
    {
      if c == NEWLINE { EnterKey(); } else { EditKey(c); }
    }
  }

  /** Editing does not look at the release flag. */
  lemma FlagIsIdle(t: Term, u: Term, color: byte, c: byte)
    requires Sound(t) && u == t.(released := false)
    ensures Sound(u) && DelChar(t) == DelChar(u).(released := t.released)
    ensures AddChar(t, color, c) == AddChar(u, color, c).(released := t.released)
    ensures forall next: seq<Cell> :: W.Behind(t, next, color, c) == W.Behind(u, next, color, c)
  {
  }
}
