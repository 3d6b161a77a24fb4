/** The line discipline: the echo on the screen agrees with the buffer, and a typed line reaches its reader intact. */
module Typing {
  import opened Basics
  import opened Screen
  import opened Line
  import opened World

  /** A key that edits the line: anything but Enter. */
  ghost predicate EditKey(c: byte) {
    c != NUL && c != NEWLINE
  }

  /** Every typed character is on the screen, at the cell its position in the line asks for. */
  ghost predicate Echoed(t: Term, color: byte)
    requires Sound(t)
  {
    forall k :: 0 <= k < StrLen(t.kb) ==> ShownAt(t, color, k)
  }

  ghost predicate ShownAt(t: Term, color: byte, k: nat)
    requires Sound(t) && k < KB_SIZE
  {
    var i := VideoIndex(t, k);
    0 <= i < CELLS && t.screen.cells[i] == Cell(t.kb[k], color)
  }

  /** Room below the cursor for the longest line: three rows, or a start in the first 34 columns. */
  predicate Room(s: Screen) {
    s.y <= NUM_ROWS - 3 || s.x <= 33
  }

  /** What holds between keystrokes of a line that started with room. */
  ghost predicate Typeable(t: Term, color: byte) {
    && Sound(t) && Room(t.screen) && Echoed(t, color)
    && (t.screen.y == NUM_ROWS - 1 ==> t.screen.x + StrLen(t.kb) < NUM_COLS)
  }

  lemma LengthIs(b: seq<byte>, n: nat)
    requires IsBuffer(b) && n < KB_SIZE && b[n] == NUL && NUL !in b[..n]
    ensures StrLen(b) == n
  {
    hide FirstNul;
    assert forall j :: 0 <= j < n ==> b[j] == b[..n][j];
  }

  /** What a character key does to the length of the line and to the cursor. */
  lemma CharMoves(t: Term, color: byte, c: byte)
    requires Sound(t) && EditKey(c) && c != BACKSPACE
    ensures var n, t1 := StrLen(t.kb), Press(t, color, c);
      && StrLen(t1.kb) == Min(n + 1, KB_SIZE - 1)
      && t1.screen.x == t.screen.x
      && t1.screen.y == (if t.screen.y == NUM_ROWS - 1 && n + t.screen.x == NUM_COLS - 1 && n < KB_SIZE - 1
                         then t.screen.y - 1 else t.screen.y)
      && (n < KB_SIZE - 1 ==> t1.kb[n] == c)
      && (forall k :: 0 <= k < n ==> t1.kb[k] == t.kb[k])
  {
    hide FirstNul;
    var n, t1 := StrLen(t.kb), Press(t, color, c);
    if n < KB_SIZE - 1 {
      LengthIs(t1.kb, n + 1);
    }
  }

  lemma BackspaceMoves(t: Term, color: byte)
    requires Sound(t)
    ensures var n, t1 := StrLen(t.kb), Press(t, color, BACKSPACE);
      && StrLen(t1.kb) == (if n == 0 then 0 else n - 1)
      && t1.screen.x == t.screen.x && t1.screen.y == t.screen.y
      && (forall k :: 0 <= k < n - 1 ==> t1.kb[k] == t.kb[k])
  {
    hide FirstNul;
    var n, t1 := StrLen(t.kb), Press(t, color, BACKSPACE);
    if n > 0 {
      LengthIs(t1.kb, n - 1);
    }
  }

  /** One edit key: the echo stays on the screen and stays in agreement, through the bottom-right scroll too. */
  lemma KeyKeepsEcho(t: Term, color: byte, c: byte)
    requires Typeable(t, color) && EditKey(c)
    ensures Typeable(Press(t, color, c), color)
    ensures EchoIndex(t, c).Some? ==> 0 <= EchoIndex(t, c).value < CELLS
  {
    hide FirstNul, AddChar, DelChar;
    if c == BACKSPACE {
      BackspaceMoves(t, color);
      BackspaceEcho(t, color);
    } else {
      CharMoves(t, color, c);
      CharEcho(t, color, c);
    }
  }

  lemma BackspaceEcho(t: Term, color: byte)
    requires Typeable(t, color)
    ensures Echoed(Press(t, color, BACKSPACE), color)
    ensures EchoIndex(t, BACKSPACE).Some? ==> 0 <= EchoIndex(t, BACKSPACE).value < CELLS
  {
    BackspaceMoves(t, color);
    hide FirstNul;
    var n, t1 := StrLen(t.kb), Press(t, color, BACKSPACE);
    if n > 0 {
      assert ShownAt(t, color, n - 1);
    }
    forall k | 0 <= k < StrLen(t1.kb) ensures ShownAt(t1, color, k) {
      assert ShownAt(t, color, k);
    }
  }

  lemma CharEcho(t: Term, color: byte, c: byte)
    requires Typeable(t, color) && EditKey(c) && c != BACKSPACE
    ensures Echoed(Press(t, color, c), color)
    ensures EchoIndex(t, c).Some? ==> 0 <= EchoIndex(t, c).value < CELLS
  {
    CharMoves(t, color, c);
    hide FirstNul;
    var n, t1 := StrLen(t.kb), Press(t, color, c);
    forall k | 0 <= k < StrLen(t1.kb) ensures ShownAt(t1, color, k) {
      if k < n {
        assert ShownAt(t, color, k);
      }
    }
  }

  ghost predicate EditKeys(keys: seq<byte>) {
    forall i :: 0 <= i < |keys| ==> EditKey(keys[i])
  }

  function PressAll(t: Term, color: byte, keys: seq<byte>): (r: Term)
    requires Sound(t)
    ensures Sound(r)
    decreases |keys|
  {
    if keys == [] then t else PressAll(Press(t, color, keys[0]), color, keys[1..])
  }

  /** No echo of these keys is written outside the 2000 cells of the screen. */
  predicate StaysOnScreen(t: Term, color: byte, keys: seq<byte>)
    requires Sound(t)
    decreases |keys|
  {
    keys == [] ||
    ((match EchoIndex(t, keys[0]) case Some(i) => 0 <= i < CELLS case None => true)
     && StaysOnScreen(Press(t, color, keys[0]), color, keys[1..]))
  }

  lemma {:induction false} EchoAgrees(t: Term, color: byte, keys: seq<byte>)
    requires Typeable(t, color) && EditKeys(keys)
    ensures StaysOnScreen(t, color, keys)
    ensures Typeable(PressAll(t, color, keys), color)
    decreases |keys|
  {
    if keys != [] {
      KeyKeepsEcho(t, color, keys[0]);
      EchoAgrees(Press(t, color, keys[0]), color, keys[1..]);
    }
  }

  /** A line typed without room, and where its cursor row is after each character. */
  lemma {:induction false} TypeWithoutRoom(t: Term, color: byte, m: nat, c: byte)
    requires Sound(t) && !Room(t.screen) && EditKey(c) && c != BACKSPACE
    requires StrLen(t.kb) + m == KB_SIZE - 1 && m > 0
    requires t.screen.y == NUM_ROWS - 1 ==> StrLen(t.kb) + t.screen.x < NUM_COLS
    ensures !StaysOnScreen(t, color, seq(m, _ => c))
    decreases m
  {
    var keys := seq(m, _ => c);
    if m > 1 {
      CharMoves(t, color, c);
      assert keys[1..] == seq(m - 1, _ => c);
      TypeWithoutRoom(Press(t, color, c), color, m - 1, c);
    }
  }

  /** The exact condition for typing on an empty line: every sequence of edit keys stays on the screen
      precisely when there was room for the longest line. */
  lemma TypingIsSafeIffRoom(t: Term, color: byte)
    requires Sound(t) && StrLen(t.kb) == 0
    ensures (forall keys | EditKeys(keys) :: StaysOnScreen(t, color, keys)) <==> Room(t.screen)
  {
    if Room(t.screen) {
      forall keys | EditKeys(keys) ensures StaysOnScreen(t, color, keys) {
        EchoAgrees(t, color, keys);
      }
    } else {
      TypeWithoutRoom(t, color, KB_SIZE - 1, SPACE);
      assert EditKeys(seq(KB_SIZE - 1, _ => SPACE));
    }
  }

  function Types(keys: seq<byte>): (r: seq<Local>)
    ensures |r| == |keys| && forall i :: 0 <= i < |keys| ==> r[i] == Type(keys[i])
  {
    seq(|keys|, i requires 0 <= i < |keys| => Type(keys[i]))
  }

  lemma {:induction false} TypesPress(t: Term, color: byte, keys: seq<byte>)
    requires Sound(t)
    ensures Replay(t, color, Types(keys)) == PressAll(t, color, keys)
    decreases |keys|
  {
    if keys != [] {
      assert Types(keys)[1..] == Types(keys[1..]);
      TypesPress(Press(t, color, keys[0]), color, keys[1..]);
    }
  }

  /** The echo of a line agrees with its buffer whatever the other terminals do meanwhile. */
  lemma EchoAgreesAmongOthers(w: World, es: seq<Event>, t: nat, keys: seq<byte>)
    requires Good(w) && Possible(w, es) && t < TERMS && (t == 0 ==> SpillsUnseen(w, es))
    requires StrLen(w.terms[t].kb) == 0 && Room(w.terms[t].screen) && EditKeys(keys)
    requires AimedAt(Route(w.fg, w.task), es, t) == Types(keys)
    ensures Sound(Run(w, es).terms[t]) && Echoed(Run(w, es).terms[t], Color(t))
  {
    NonInterference(w, es, t);
    TypesPress(w.terms[t], Color(t), keys);
    EchoAgrees(w.terms[t], Color(t), keys);
  }

  // ---------- lines spill nothing, unless a program prints into them ----------

  /** A line in the last row has not passed column 79: it would have scrolled. */
  ghost predicate Fits(t: Term) {
    Sound(t) && (StrLen(t.kb) > 0 && t.screen.y == NUM_ROWS - 1 ==> t.screen.x + StrLen(t.kb) < NUM_COLS)
  }

  /** No program prints into a line that is being typed on terminal 1 or 2. */
  ghost predicate BetweenLines(w: World, e: Event)
    requires Good(w)
  {
    e.Put? && w.task != 0 ==> StrLen(w.terms[w.task].kb) == 0
  }

  ghost predicate PrintsBetweenLines(w: World, es: seq<Event>)
    requires Good(w) && Possible(w, es)
    decreases |es|
  {
    es == [] || (BetweenLines(w, es[0]) && PrintsBetweenLines(Step(w, es[0]), es[1..]))
  }

  /** A line that fits stays so, wherever it started, and its echo ends before the video page does. */
  lemma KeyFits(t: Term, color: byte, c: byte)
    requires Fits(t) && c != NUL
    ensures Fits(Press(t, color, c))
    ensures EchoIndex(t, c).Some? ==> EchoIndex(t, c).value < PAGE_CELLS
  {
    hide FirstNul;
    if c == BACKSPACE {
      BackspaceMoves(t, color);
    } else if c == NEWLINE {
      LengthIs(Press(t, color, c).kb, 0);
    } else {
      CharMoves(t, color, c);
    }
  }

  lemma AimedFits(t: Term, color: byte, aimed: seq<Local>)
    requires Fits(t) && |aimed| <= 1
    requires aimed != [] && aimed[0].Print? ==> StrLen(t.kb) == 0
    requires aimed != [] && aimed[0].Type? ==> aimed[0].c != NUL
    ensures Fits(StepAimed(t, color, aimed))
  {
    hide FirstNul, Press, Putc;
    if aimed != [] {
      match aimed[0]
      case Print(_) =>
      case Type(c) => KeyFits(t, color, c);
      case Wipe => LengthIs(ClearTerm(t, color).kb, 0);
      case Consumed =>
    }
  }

  lemma FitsThrough(w: World, e: Event)
    requires Good(w) && Allowed(w, e) && BetweenLines(w, e) && Fits(w.terms[1]) && Fits(w.terms[2])
    ensures !SpillsBehind(w, e) && Fits(Step(w, e).terms[1]) && Fits(Step(w, e).terms[2])
  {
    hide Step, Fits, StepAimed, FirstNul, Unseen;
    forall t | 1 <= t < TERMS ensures Fits(Step(w, e).terms[t]) {
      AimedFits(w.terms[t], Color(t), Aim(Route(w.fg, w.task), e, t));
      StepIsLocal(w, e, t);
    }
    if e.Key? && w.fg != 0 {
      KeyFits(w.terms[w.fg], Color(w.fg), e.c);
    }
  }

  /** When programs on terminals 1 and 2 print between lines only, nothing is ever spilled. */
  lemma {:induction false} LinesNeverSpill(w: World, es: seq<Event>)
    requires Good(w) && Possible(w, es) && PrintsBetweenLines(w, es) && Fits(w.terms[1]) && Fits(w.terms[2])
    ensures NoSpill(w, es) && SpillsUnseen(w, es)
    decreases |es|
  {
    hide Step, Fits, BetweenLines;
    if es != [] {
      FitsThrough(w, es[0]);
      LinesNeverSpill(Step(w, es[0]), es[1..]);
    }
  }

  ghost predicate NoSpill(w: World, es: seq<Event>)
    requires Good(w) && Possible(w, es)
    decreases |es|
  {
    es == [] || (!SpillsBehind(w, es[0]) && NoSpill(Step(w, es[0]), es[1..]))
  }

  /** So every terminal, terminal 0 included, is its own. */
  lemma LinesKeepTerminalsApart(w: World, es: seq<Event>, t: nat)
    requires Good(w) && Possible(w, es) && PrintsBetweenLines(w, es) && Fits(w.terms[1]) && Fits(w.terms[2])
    requires t < TERMS
    ensures Run(w, es).terms[t] == Replay(w.terms[t], Color(t), AimedAt(Route(w.fg, w.task), es, t))
  {
    LinesNeverSpill(w, es);
    NonInterference(w, es, t);
  }

  // ---------- from keys to a reader ----------

  /** The line editor on plain text: append below the limit, or drop the last character. */
  function Edit(line: seq<byte>, c: byte): seq<byte> {
    if c == BACKSPACE then (if line == [] then [] else line[..|line| - 1])
    else if |line| < KB_SIZE - 1 then line + [c] else line
  }

  function EditAll(line: seq<byte>, es: seq<Local>): seq<byte>
    decreases |es|
  {
    if es == [] then line
    else EditAll(match es[0] case Type(c) => Edit(line, c) case Wipe => [] case _ => line, es[1..])
  }

  lemma KeyEdits(t: Term, color: byte, c: byte)
    requires Sound(t) && EditKey(c)
    ensures Typed(Press(t, color, c).kb) == Edit(Typed(t.kb), c)
  {
    if c == BACKSPACE { BackspaceMoves(t, color); } else { CharMoves(t, color, c); }
  }

  /** No Enter is pressed while terminal t is in the foreground. */
  ghost predicate NoEnter(es: seq<Local>) {
    forall i :: 0 <= i < |es| && es[i].Type? ==> EditKey(es[i].c)
  }

  lemma StepEdits(t: Term, color: byte, aimed: seq<Local>)
    requires Sound(t) && NoEnter(aimed) && |aimed| <= 1
    ensures Typed(StepAimed(t, color, aimed).kb) == EditAll(Typed(t.kb), aimed)
  {
    if aimed != [] && aimed[0].Type? {
      KeyEdits(t, color, aimed[0].c);
    }
  }

  lemma {:induction false} EditAllAppends(line: seq<byte>, a: seq<Local>, b: seq<Local>)
    ensures EditAll(line, a + b) == EditAll(EditAll(line, a), b)
    decreases |a|
  {
    if a == [] {
      assert a + b == b;
    } else {
      assert (a + b)[1..] == a[1..] + b;
      EditAllAppends(match a[0] case Type(c) => Edit(line, c) case Wipe => [] case _ => line, a[1..], b);
    }
  }

  lemma EditsNothing(line: seq<byte>)
    ensures EditAll(line, []) == line
  {
  }

  lemma NoEnterSplit(a: seq<Local>, b: seq<Local>)
    requires NoEnter(a + b)
    ensures NoEnter(a) && NoEnter(b)
  {
    assert forall i :: 0 <= i < |a| ==> a[i] == (a + b)[i];
    assert forall i :: 0 <= i < |b| ==> b[i] == (a + b)[|a| + i];
  }

  /** Through terminal switches and any activity elsewhere, a terminal's buffer holds its own edited line. */
  lemma {:induction false} LineIsEdited(w: World, es: seq<Event>, t: nat)
    requires Good(w) && Possible(w, es) && t < TERMS
    requires NoEnter(AimedAt(Route(w.fg, w.task), es, t))
    ensures Typed(Run(w, es).terms[t].kb)
         == EditAll(Typed(w.terms[t].kb), AimedAt(Route(w.fg, w.task), es, t))
    decreases |es|
  {
    hide Step, StepAimed, Aim, Redirect, NoEnter, Typed, EditAll, FirstNul;
    if es != [] {
      var route, w1 := Route(w.fg, w.task), Step(w, es[0]);
      var first, rest := Aim(route, es[0], t), AimedAt(Redirect(route, es[0]), es[1..], t);
      NoEnterSplit(first, rest);
      StepEdits(w.terms[t], Color(t), first);
      StepIsLocal(w, es[0], t);
      RouteFollows(w, es[0]);
      LineIsEdited(w1, es[1..], t);
      EditAllAppends(Typed(w.terms[t].kb), first, rest);
    } else {
      EditsNothing(Typed(w.terms[t].kb));
    }
  }

  /** Edited text never holds a newline or a NUL. */
  lemma {:induction false} EditedIsPlain(line: seq<byte>, es: seq<Local>)
    requires NoEnter(es) && NEWLINE !in line
    ensures NEWLINE !in EditAll(line, es)
    decreases |es|
  {
    if es != [] {
      assert forall i :: 0 <= i < |es[1..]| ==> es[1..][i] == es[i + 1];
      EditedIsPlain(match es[0] case Type(c) => Edit(line, c) case Wipe => [] case _ => line, es[1..]);
    }
  }

  lemma EnterBuffers(t: Term, color: byte)
    requires Sound(t)
    ensures var n := StrLen(t.kb);
      AddChar(t, color, NEWLINE).kb == if n < KB_SIZE - 1 then t.kb[n + 1 := NUL][n := NEWLINE] else t.kb
    ensures Press(t, color, NEWLINE).kb == Flushed(AddChar(t, color, NEWLINE).kb)
    ensures Press(t, color, NEWLINE).released
  {
    hide FirstNul, LineBreak, Scrolled, Flushed;
  }

  lemma LineHandedOver(kb: seq<byte>, intBuf: seq<byte>)
    requires IsBuffer(kb) && |intBuf| == KB_SIZE && StrLen(kb) < KB_SIZE - 1 && NEWLINE !in Typed(kb)
    ensures var n := StrLen(kb);
      var ended := kb[n + 1 := NUL][n := NEWLINE];
      && HandOver(ended, intBuf) == Typed(kb) + [NEWLINE] + intBuf[n + 1..]
      && forall j :: 0 <= j < KB_SIZE ==> Flushed(ended)[j] == if j <= n + 1 then NUL else kb[j]
  {
    hide FirstNul, FirstNewline;
    var n := StrLen(kb);
    var ended := kb[n + 1 := NUL][n := NEWLINE];
    assert forall i :: 0 <= i < n ==> ended[i] == Typed(kb)[i] && Typed(kb)[i] in Typed(kb);
    assert ended[..n + 1] == Typed(kb) + [NEWLINE] && ended[n] == NEWLINE;
    FirstNewlineIs(ended, KB_SIZE, n);
  }

  lemma FirstNewlineIs(b: seq<byte>, limit: nat, n: nat)
    requires n <= limit <= |b| && (n < limit ==> b[n] == NEWLINE) && forall i :: 0 <= i < n ==> b[i] != NEWLINE
    ensures FirstNewline(b, limit, 0) == n
  {
    hide FirstNewline;
  }

  lemma AllHandedOver(kb: seq<byte>, intBuf: seq<byte>)
    requires IsBuffer(kb) && |intBuf| == KB_SIZE && StrLen(kb) == KB_SIZE - 1 && NEWLINE !in Typed(kb)
    ensures HandOver(kb, intBuf) == Typed(kb) + [NUL] && Flushed(kb) == Repeat(NUL, KB_SIZE)
  {
    hide FirstNul, FirstNewline;
    assert forall i :: 0 <= i < KB_SIZE - 1 ==> kb[i] == Typed(kb)[i] && Typed(kb)[i] in Typed(kb);
    FirstNewlineIs(kb, KB_SIZE, KB_SIZE);
    assert kb == Typed(kb) + [NUL];
  }

  lemma NothingTyped(kb: seq<byte>)
    requires IsBuffer(kb) && StrLen(kb) == 0
    ensures Typed(kb) == []
  {
  }

  /** Enter: the line and its newline are handed over, the key buffer empties, the reader is released; the rest of
      both buffers stays. */
  lemma EnterHandsOver(w: World)
    requires Good(w) && |Typed(w.terms[w.fg].kb)| < KB_SIZE - 1 && NEWLINE !in Typed(w.terms[w.fg].kb)
    ensures var line, w1 := Typed(w.terms[w.fg].kb), Step(w, Key(NEWLINE));
      && w1.intBuf == line + [NEWLINE] + w.intBuf[|line| + 1..]
      && Typed(w1.terms[w.fg].kb) == [] && w1.terms[w.fg].released && w1.fg == w.fg
      && forall j :: 0 <= j < KB_SIZE ==> w1.terms[w.fg].kb[j] == if j <= |line| + 1 then NUL else w.terms[w.fg].kb[j]
  {
    hide Step, AddChar, Press, Typed, StrLen, HandOver;
    EnterBuffers(w.terms[w.fg], Color(w.fg));
    KeyParts(w, NEWLINE);
    LineHandedOver(w.terms[w.fg].kb, w.intBuf);
    LengthIs(Step(w, Key(NEWLINE)).terms[w.fg].kb, 0);
    NothingTyped(Step(w, Key(NEWLINE)).terms[w.fg].kb);
  }

  /** Enter on a full buffer: all of it is handed over, without a newline, and the key buffer empties. */
  lemma FullLineHandsOver(w: World)
    requires Good(w) && |Typed(w.terms[w.fg].kb)| == KB_SIZE - 1 && NEWLINE !in Typed(w.terms[w.fg].kb)
    ensures var line, w1 := Typed(w.terms[w.fg].kb), Step(w, Key(NEWLINE));
      && w1.intBuf == line + [NUL] && w1.terms[w.fg].kb == Repeat(NUL, KB_SIZE) && w1.terms[w.fg].released
  {
    hide Step, AddChar, Press, Typed, StrLen, HandOver;
    EnterBuffers(w.terms[w.fg], Color(w.fg));
    KeyParts(w, NEWLINE);
    AllHandedOver(w.terms[w.fg].kb, w.intBuf);
  }

  /** While nobody presses Enter or reads, the handed-over line waits. */
  ghost predicate Quiet(es: seq<Event>) {
    forall i :: 0 <= i < |es| ==> es[i] != Key(NEWLINE) && !es[i].Read?
  }

  lemma {:induction false} LineWaits(w: World, es: seq<Event>, t: nat)
    requires Good(w) && Possible(w, es) && Quiet(es) && t < TERMS && w.terms[t].released
    ensures Run(w, es).intBuf == w.intBuf && Run(w, es).terms[t].released
    decreases |es|
  {
    if es != [] {
      LineWaits(Step(w, es[0]), es[1..], t);
    }
  }

  /** A line typed at terminal t, with any edits, terminal switches and other activity, then Enter: the next
      terminal_read of t's task returns exactly the edited line and its newline. */
  lemma TypedLineRoundTrip(w: World, typing: seq<Event>, waiting: seq<Event>, t: nat, nbytes: nat, dest: seq<byte>)
    requires Good(w) && t < TERMS && StrLen(w.terms[t].kb) == 0
    requires Possible(w, typing) && NoEnter(AimedAt(Route(w.fg, w.task), typing, t))
    requires Run(w, typing).fg == t
    requires var w2 := Step(Run(w, typing), Key(NEWLINE));
      Possible(w2, waiting) && Quiet(waiting) && Run(w2, waiting).task == t
    requires var line := EditAll([], AimedAt(Route(w.fg, w.task), typing, t));
      |line| < KB_SIZE - 1 && |line| < nbytes && ReadLimit(nbytes) <= |dest|
    ensures var line := EditAll([], AimedAt(Route(w.fg, w.task), typing, t));
      var w2 := Step(Run(w, typing), Key(NEWLINE));
      var w3 := Run(w2, waiting);
      && Typed(w2.terms[t].kb) == []
      && Allowed(w3, Read(nbytes))
      && ReadCount(w3.intBuf, nbytes) == |line|
      && Received(w3.intBuf, nbytes, dest)[..|line| + 1] == line + [NEWLINE]
  {
    var aimed := AimedAt(Route(w.fg, w.task), typing, t);
    var line, w1 := EditAll([], aimed), Run(w, typing);
    assert Typed(w.terms[t].kb) == [];
    LineIsEdited(w, typing, t);
    EditedIsPlain([], aimed);
    EnterHandsOver(w1);
    var w2 := Step(w1, Key(NEWLINE));
    LineWaits(w2, waiting, t);
    ReadReturnsLine(w2.intBuf, line, nbytes, dest);
  }

  /** A request above the line's length: line, newline, and a newline in the last byte of the request; no other
      byte of the reader's buffer changes. */
  lemma ReadReturnsLine(intBuf: seq<byte>, line: seq<byte>, nbytes: nat, dest: seq<byte>)
    requires IsBuffer(intBuf) && |line| < KB_SIZE - 1 && |line| < nbytes && ReadLimit(nbytes) <= |dest|
    requires intBuf[..|line| + 1] == line + [NEWLINE] && NEWLINE !in line
    ensures Servable(intBuf, nbytes) && ReadCount(intBuf, nbytes) == |line|
    ensures var got := Received(intBuf, nbytes, dest);
      && got[..|line| + 1] == line + [NEWLINE] && got[Min(nbytes, KB_SIZE) - 1] == NEWLINE
      && forall j :: |line| < j < |dest| && j != Min(nbytes, KB_SIZE) - 1 ==> got[j] == dest[j]
  {
    hide FirstNewline;
    assert intBuf[|line|] == (line + [NEWLINE])[|line|];
    assert forall i :: 0 <= i < |line| ==> intBuf[i] == (line + [NEWLINE])[i] == line[i];
    FirstNewlineIs(intBuf, ReadLimit(nbytes), |line|);
  }

  /** A shorter request: all but the last of its bytes are the line's, the last one is a newline. */
  lemma ReadCutsLine(intBuf: seq<byte>, line: seq<byte>, nbytes: nat, dest: seq<byte>)
    requires IsBuffer(intBuf) && 0 < nbytes <= |line| < KB_SIZE - 1 && nbytes <= |dest|
    requires intBuf[..|line| + 1] == line + [NEWLINE] && NEWLINE !in line
    ensures Servable(intBuf, nbytes) && ReadCount(intBuf, nbytes) == nbytes
    ensures Received(intBuf, nbytes, dest) == line[..nbytes - 1] + [NEWLINE] + dest[nbytes..]
  {
    hide FirstNewline;
    assert forall i :: 0 <= i < |line| ==> intBuf[i] == (line + [NEWLINE])[i] == line[i];
    FirstNewlineIs(intBuf, ReadLimit(nbytes), nbytes);
  }

  /** What a read that stopped at position n leaves: the m characters behind it move to the front, NULs take their
      place and that of the line; the byte at n stays if nothing moves over it. */
  lemma RestMovesUp(intBuf: seq<byte>, n: nat, m: nat)
    requires IsBuffer(intBuf) && n < KB_SIZE - 1 && n + 1 + m < KB_SIZE && intBuf[n + 1 + m] == NUL
    requires forall j :: n < j < n + 1 + m ==> intBuf[j] != NUL
    ensures var r := Remaining(intBuf, n);
      && r[..m] == intBuf[n + 1..n + 1 + m]
      && (forall j :: m <= j < n + 1 + m ==> r[j] == if j == n then intBuf[n] else NUL)
      && r[n + 1 + m..] == intBuf[n + 1 + m..]
  {
    hide FirstNul;
    assert FirstNul(intBuf, n + 1) == n + 1 + m;
  }

  // ---------- who may read ----------

  /** No read among the events. */
  ghost predicate Unread(es: seq<Local>) {
    forall k :: 0 <= k < |es| ==> es[k] != Consumed
  }

  /** An Enter, and no read after it. */
  ghost predicate Entered(es: seq<Local>) {
    exists k :: 0 <= k < |es| && es[k] == Type(NEWLINE) && Unread(es[k + 1..])
  }

  lemma EnteredLater(es: seq<Local>)
    requires es != []
    ensures Entered(es) <==> Entered(es[1..]) || (es[0] == Type(NEWLINE) && Unread(es[1..]))
    ensures Unread(es) <==> es[0] != Consumed && Unread(es[1..])
  {
    if Entered(es) {
      var k :| 0 <= k < |es| && es[k] == Type(NEWLINE) && Unread(es[k + 1..]);
      if k > 0 {
        assert es[1..][k - 1] == Type(NEWLINE) && es[1..][k..] == es[k + 1..];
      }
    }
    if Entered(es[1..]) {
      var k :| 0 <= k < |es[1..]| && es[1..][k] == Type(NEWLINE) && Unread(es[1..][k + 1..]);
      assert es[k + 1] == Type(NEWLINE) && es[k + 2..] == es[1..][k + 1..];
    }
    if Unread(es[1..]) && es[0] != Consumed {
      forall k | 0 <= k < |es| ensures es[k] != Consumed {
        if k > 0 { assert es[1..][k - 1] == es[k]; }
      }
    }
  }

  lemma PressAndFlag(t: Term, color: byte, c: byte)
    requires Sound(t)
    ensures Press(t, color, c).released == (t.released || c == NEWLINE)
  {
    hide FirstNul;
  }

  lemma {:induction false} ReplayFlag(t: Term, color: byte, es: seq<Local>)
    requires Sound(t)
    ensures Replay(t, color, es).released <==> Entered(es) || (t.released && Unread(es))
    decreases |es|
  {
    hide Press, Unread, Entered;
    if es == [] {
      assert Unread(es) && !Entered(es) by { NothingEntered(); }
    } else {
      EnteredLater(es);
      ReplayFlag(StepLocal(t, color, es[0]), color, es[1..]);
      if es[0].Type? {
        PressAndFlag(t, color, es[0].c);
      }
    }
  }

  lemma NothingEntered()
    ensures Unread([]) && !Entered([])
  {
  }

  /** A terminal's reader may go on exactly when Enter was pressed there since its last read. */
  lemma ReaderWaitsForEnter(w: World, es: seq<Event>, t: nat)
    requires Good(w) && Possible(w, es) && t < TERMS && !w.terms[t].released
    ensures Run(w, es).terms[t].released <==> Entered(AimedAt(Route(w.fg, w.task), es, t))
    ensures Run(w, es).task == t ==>
      forall nbytes :: Allowed(Run(w, es), Read(nbytes)) ==> Entered(AimedAt(Route(w.fg, w.task), es, t))
  {
    hide Entered, Unread, Run, Possible, AimedAt;
    OnlyCellsAreSpilled(w, es, t);
    ReplayFlag(w.terms[t], Color(t), AimedAt(Route(w.fg, w.task), es, t));
  }

  /** The intermediate buffer is one for all terminals: whoever reads first gets the line entered last, wherever it
      was typed. */
  lemma ReaderGetsLastLine(w: World, waiting: seq<Event>, t: nat, nbytes: nat, dest: seq<byte>)
    requires Good(w) && t < TERMS && NEWLINE !in Typed(w.terms[w.fg].kb)
    requires var line := Typed(w.terms[w.fg].kb);
      |line| < KB_SIZE - 1 && |line| < nbytes && ReadLimit(nbytes) <= |dest|
    requires var w1 := Step(w, Key(NEWLINE));
      Possible(w1, waiting) && Quiet(waiting) && Run(w1, waiting).task == t && w1.terms[t].released
    ensures var line, end := Typed(w.terms[w.fg].kb), Run(Step(w, Key(NEWLINE)), waiting);
      && Allowed(end, Read(nbytes)) && ReadCount(end.intBuf, nbytes) == |line|
      && Received(end.intBuf, nbytes, dest)[..|line| + 1] == line + [NEWLINE]
  {
    hide Step, Typed, Run, Possible, Quiet, Servable, Received, ReadCount;
    EnterHandsOver(w);
    var line, w1 := Typed(w.terms[w.fg].kb), Step(w, Key(NEWLINE));
    LineWaits(w1, waiting, t);
    ReadReturnsLine(w1.intBuf, line, nbytes, dest);
  }
}
