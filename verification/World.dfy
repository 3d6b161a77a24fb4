/**
 The three terminals together, one of them in the foreground and one running the active task. The key
 result: what happens to a terminal is what replaying only the events aimed at it would do.
 */
module World {
  import opened Basics
  import opened Screen
  import opened Line
  import Canvas

  const TERMS: nat := 3

  /** Video memory holds 2000 cells on screen; terminal 0's buffer starts 2048 cells further on. */
  const PAGE_CELLS: nat := 2048

  datatype World = World(terms: seq<Term>, intBuf: seq<byte>, fg: nat, task: nat)

  ghost predicate Good(w: World) {
    && |w.terms| == TERMS && w.fg < TERMS && w.task < TERMS && IsBuffer(w.intBuf)
    && forall t :: 0 <= t < TERMS ==> Sound(w.terms[t])
  }

  function Color(t: nat): byte
    requires t < TERMS
  {
    if t == 0 then 0x7 else if t == 1 then 0xA else 0xC
  }

  /** The terminals after start-up: cleared, nothing typed, terminal 0 in the foreground and running. */
  ghost function Boot(): (w: World)
    ensures Good(w) && forall t :: 0 <= t < TERMS ==> w.terms[t] == Term(Cleared(Color(t)), Repeat(NUL, KB_SIZE), false)
  {
    World(seq(TERMS, t requires 0 <= t < TERMS => Term(Cleared(Color(t)), Repeat(NUL, KB_SIZE), false)),
          Repeat(NUL, KB_SIZE), 0, 0)
  }

  datatype Event =
    | Put(c: byte)          // the active task prints a character
    | Key(c: byte)          // a decoded key reaches the foreground terminal
    | ClearKey              // CTRL+L
    | Switch(t: nat)        // ALT+F1..F3
    | Dispatch(t: nat)      // the scheduler makes another terminal's task active
    | Read(nbytes: nat)     // the active task's terminal_read returns

  ghost predicate Allowed(w: World, e: Event)
    requires Good(w)
  {
    match e
    case Key(c) => c != NUL
    case Dispatch(t) => t < TERMS
    case Read(nbytes) => w.terms[w.task].released && Servable(w.intBuf, nbytes)
    case _ => true
  }

  /** The video index a key writes to, if it writes one. */
  function EchoIndex(t: Term, c: byte): Option<int>
    requires Sound(t)
  {
    var n := StrLen(t.kb);
    if c == BACKSPACE then (if n > 0 then Some(VideoIndex(t, n) - 1) else None)
    else if c != NEWLINE && n < KB_SIZE - 1 then Some(VideoIndex(t, n))
    else None
  }

  /** A key whose echo runs past the video page into terminal 0's buffer. */
  function Spill(w: World, e: Event): Option<int>
    requires Good(w)
  {
    if e.Key? then
      match EchoIndex(w.terms[w.fg], e.c)
      case Some(i) => if i >= PAGE_CELLS then Some(i - PAGE_CELLS) else None
      case None => None
    else None
  }

  /** What a spilled echo does to the buffer it lands in. */
  function SpillInto(cells: seq<Cell>, i: int, color: byte, c: byte): (r: seq<Cell>)
    ensures |r| == |cells|
  {
    if c == BACKSPACE then Erase(cells, i) else Write(cells, i, Cell(c, color))
  }

  ghost function SetTerm(w: World, t: nat, term: Term): (r: World)
    requires Good(w) && t < TERMS && Sound(term)
    ensures Good(r)
  {
    w.(terms := w.terms[t := term])
  }

  /** What a key in terminal t leaves in the memory behind the video page. */
  ghost function Behind(t: Term, next: seq<Cell>, color: byte, c: byte): (r: seq<Cell>)
    requires Sound(t)
    ensures |r| == |next|
  {
    match EchoIndex(t, c)
    case Some(i) => if i >= PAGE_CELLS then SpillInto(next, i - PAGE_CELLS, color, c) else next
    case None => next
  }

  /** after, the world a key made of w, with the key's spill from w added. Terminal 0's buffer is out of sight
      while terminal 0 itself is in the foreground. */
  ghost function WithSpill(w: World, after: World, c: byte): (r: World)
    requires Good(w) && Good(after)
    ensures Good(r)
  {
    match Spill(w, Key(c))
    case Some(i) =>
      if w.fg == 0 then after
      else
        var t0 := after.terms[0];
        SetTerm(after, 0, t0.(screen := t0.screen.(cells := SpillInto(t0.screen.cells, i, Color(w.fg), c))))
    case None => after
  }

  /** A key press: the foreground terminal's own reaction, the line handed over, and a possible spill. */
  ghost function StepKey(w: World, c: byte): (r: World)
    requires Good(w)
    ensures Good(r)
  {
    var fg, color := w.terms[w.fg], Color(w.fg);
    var pressed := SetTerm(w, w.fg, Press(fg, color, c));
    var handed := if c == NEWLINE then pressed.(intBuf := HandOver(AddChar(fg, color, c).kb, w.intBuf)) else pressed;
    WithSpill(w, handed, c)
  }

  ghost function Step(w: World, e: Event): (r: World)
    requires Good(w) && Allowed(w, e)
    ensures Good(r)
  {
    match e
    case Put(c) =>
      var t := w.terms[w.task];
      SetTerm(w, w.task, t.(screen := Putc(t.screen, Color(w.task), c)))
    case Key(c) => StepKey(w, c)
    case ClearKey => SetTerm(w, w.fg, ClearTerm(w.terms[w.fg], Color(w.fg)))
    case Switch(t) => if t < TERMS then w.(fg := t) else w
    case Dispatch(t) => w.(task := t)
    case Read(nbytes) =>
      SetTerm(w, w.task, w.terms[w.task].(released := false))
        .(intBuf := Remaining(w.intBuf, ReadCount(w.intBuf, nbytes)))
  }

  function OnScreen(t: Term, cells: seq<Cell>): Term {
    t.(screen := t.screen.(cells := cells))
  }

  /** A printed character and CTRL+L, part by part. */
  lemma PutParts(w: World, c: byte)
    requires Good(w)
    ensures var r, t := Step(w, Put(c)), w.terms[w.task];
      && |r.terms| == TERMS && Sound(t) && r.fg == w.fg && r.task == w.task && r.intBuf == w.intBuf
      && r.terms[w.task] == t.(screen := Putc(t.screen, Color(w.task), c))
      && forall u :: 0 <= u < TERMS && u != w.task ==> r.terms[u] == w.terms[u]
  {
  }

  lemma ClearParts(w: World)
    requires Good(w)
    ensures var r, t := Step(w, ClearKey), w.terms[w.fg];
      && |r.terms| == TERMS && Sound(t) && r.fg == w.fg && r.task == w.task && r.intBuf == w.intBuf
      && r.terms[w.fg] == ClearTerm(t, Color(w.fg))
      && forall u :: 0 <= u < TERMS && u != w.fg ==> r.terms[u] == w.terms[u]
  {
  }

  lemma ReadParts(w: World, nbytes: nat)
    requires Good(w) && Allowed(w, Read(nbytes))
    ensures var r, t := Step(w, Read(nbytes)), w.terms[w.task];
      && |r.terms| == TERMS && r.fg == w.fg && r.task == w.task
      && r.intBuf == Remaining(w.intBuf, ReadCount(w.intBuf, nbytes))
      && r.terms[w.task] == t.(released := false)
      && forall u :: 0 <= u < TERMS && u != w.task ==> r.terms[u] == w.terms[u]
  {
  }

  /** A key, part by part. */
  lemma KeyParts(w: World, c: byte)
    requires Good(w) && c != NUL
    ensures var fg, color, w1 := w.terms[w.fg], Color(w.fg), Step(w, Key(c));
      && Good(w1) && w1.fg == w.fg && w1.task == w.task
      && w1.intBuf == (if c == NEWLINE then HandOver(AddChar(fg, color, c).kb, w.intBuf) else w.intBuf)
      && w1.terms[w.fg] == Press(fg, color, c)
      && (w.fg != 0 ==> w1.terms[0] == OnScreen(w.terms[0], Behind(fg, w.terms[0].screen.cells, color, c)))
      && (forall t :: 0 < t < TERMS && t != w.fg ==> w1.terms[t] == w.terms[t])
  {
  }

  ghost predicate Possible(w: World, es: seq<Event>)
    requires Good(w)
    decreases |es|
  {
    es == [] || (Allowed(w, es[0]) && Possible(Step(w, es[0]), es[1..]))
  }

  ghost function Run(w: World, es: seq<Event>): (r: World)
    requires Good(w) && Possible(w, es)
    ensures Good(r)
    decreases |es|
  {
    if es == [] then w else Run(Step(w, es[0]), es[1..])
  }

  /** The active task prints a whole text. */
  ghost function PutText(w: World, text: seq<byte>): (r: World)
    requires Good(w)
    ensures Good(r)
  {
    var t := w.terms[w.task];
    SetTerm(w, w.task, t.(screen := PutAll(t.screen, Color(w.task), text)))
  }

  lemma PutTextThenPut(w: World, text: seq<byte>, c: byte)
    requires Good(w)
    ensures Step(PutText(w, text), Put(c)) == PutText(w, text + [c])
  {
    PutAllAppends(w.terms[w.task].screen, Color(w.task), text, [c]);
  }

  lemma PutTextOfNothing(w: World)
    requires Good(w)
    ensures PutText(w, []) == w
  {
  }

  lemma PutTextAppends(w: World, a: seq<byte>, b: seq<byte>)
    requires Good(w)
    ensures PutText(PutText(w, a), b) == PutText(w, a + b)
  {
    PutAllAppends(w.terms[w.task].screen, Color(w.task), a, b);
  }

  /** What terminal_write prints of a buffer: a text file's stops after the first NUL. */
  function Shown(text: seq<byte>, isText: bool): (r: seq<byte>)
    ensures r <= text
  {
    if text == [] then []
    else if isText && text[0] == NUL then [NUL]
    else [text[0]] + Shown(text[1..], isText)
  }

  lemma {:induction false} ShownAll(text: seq<byte>, isText: bool)
    requires isText ==> NUL !in text
    ensures Shown(text, isText) == text
    decreases |text|
  {
    if text != [] {
      ShownAll(text[1..], isText);
    }
  }

  lemma {:induction false} ShownToNul(text: seq<byte>, k: nat)
    requires k < |text| && text[k] == NUL && NUL !in text[..k]
    ensures Shown(text, true) == text[..k + 1]
    decreases k
  {
    if k > 0 {
      assert text[0] in text[..k];
      assert text[1..][..k - 1] == text[..k][1..];
      ShownToNul(text[1..], k - 1);
    }
  }

  // ---------- replay ----------

  /** An event as one terminal sees it. */
  datatype Local = Print(c: byte) | Type(c: byte) | Wipe | Consumed

  /** Where events go: decided by the foreground terminal and the active task alone. */
  datatype Route = Route(fg: nat, task: nat)

  function Redirect(route: Route, e: Event): Route {
    match e
    case Switch(t) => if t < TERMS then route.(fg := t) else route
    case Dispatch(t) => route.(task := t)
    case _ => route
  }

  /** An event as terminal t sees it: once when it is aimed at t, else not at all. */
  function Aim(route: Route, e: Event, t: nat): (r: seq<Local>)
    ensures |r| <= 1
  {
    match e
    case Put(c) => if route.task == t then [Print(c)] else []
    case Key(c) => if route.fg == t then [Type(c)] else []
    case ClearKey => if route.fg == t then [Wipe] else []
    case Read(_) => if route.task == t then [Consumed] else []
    case _ => []
  }

  /** The events of a run that are aimed at terminal t, in order. */
  function AimedAt(route: Route, es: seq<Event>, t: nat): seq<Local>
    decreases |es|
  {
    if es == [] then [] else Aim(route, es[0], t) + AimedAt(Redirect(route, es[0]), es[1..], t)
  }

  function StepLocal(t: Term, color: byte, e: Local): (r: Term)
    requires Sound(t)
    ensures Sound(r)
  {
    match e
    case Print(c) => t.(screen := Putc(t.screen, color, c))
    case Type(c) => Press(t, color, c)
    case Wipe => ClearTerm(t, color)
    case Consumed => t.(released := false)
  }

  function Replay(t: Term, color: byte, es: seq<Local>): (r: Term)
    requires Sound(t)
    ensures Sound(r)
    decreases |es|
  {
    if es == [] then t else Replay(StepLocal(t, color, es[0]), color, es[1..])
  }

  /** A key spills into terminal 0's buffer while another terminal is in the foreground. While terminal 0 itself
      is there, its buffer is out of sight. */
  predicate SpillsBehind(w: World, e: Event)
    requires Good(w)
  {
    w.fg != 0 && Spill(w, e).Some?
  }

  /** A spill reaches the first 78 cells of terminal 0's buffer at most. */
  lemma SpillBound(w: World, e: Event)
    requires Good(w)
    ensures Spill(w, e).Some? ==> 0 <= Spill(w, e).value < 78
  {
    hide FirstNul;
  }

  /** The cell already looks like the echo of c. */
  predicate LooksLike(cell: Cell, color: byte, c: byte) {
    if c == BACKSPACE then cell.ch == SPACE else cell == Cell(c, color)
  }

  /** Nothing of a spill is to be seen: there is none, or the cell it reaches already looks like the echo. */
  predicate Unseen(w: World, e: Event)
    requires Good(w)
  {
    SpillsBehind(w, e) ==>
      0 <= Spill(w, e).value < CELLS && LooksLike(w.terms[0].screen.cells[Spill(w, e).value], Color(w.fg), e.c)
  }

  /** Along the run nothing is to be seen of spills. This only matters to terminal 0. */
  ghost predicate SpillsUnseen(w: World, es: seq<Event>)
    requires Good(w) && Possible(w, es)
    decreases |es|
  {
    es == [] || (Unseen(w, es[0]) && SpillsUnseen(Step(w, es[0]), es[1..]))
  }

  function StepAimed(t: Term, color: byte, aimed: seq<Local>): (r: Term)
    requires Sound(t)
    ensures Sound(r)
  {
    if aimed == [] then t else StepLocal(t, color, aimed[0])
  }

  /** The same up to the cells on the screen. */
  predicate Alike(a: Term, b: Term) {
    b == OnScreen(a, b.screen.cells)
  }

  /** Without a spill into it, one event changes a terminal only if it is aimed at it. */
  lemma StepWithoutSpill(w: World, e: Event, t: nat)
    requires Good(w) && Allowed(w, e) && t < TERMS && (t != 0 || !SpillsBehind(w, e))
    ensures Step(w, e).terms[t] == StepAimed(w.terms[t], Color(t), Aim(Route(w.fg, w.task), e, t))
  {
    hide Press, ClearTerm, Putc, Remaining, ReadCount, HandOver, EchoIndex, SpillInto, LooksLike;
  }

  /** A spill reaches cells of terminal 0's buffer only, and changes them exactly when it is to be seen. */
  lemma SpillReachesCells(w: World, e: Event)
    requires Good(w) && Allowed(w, e) && SpillsBehind(w, e)
    ensures Aim(Route(w.fg, w.task), e, 0) == []
    ensures Alike(w.terms[0], Step(w, e).terms[0])
    ensures Step(w, e).terms[0] == w.terms[0] <==> Unseen(w, e)
  {
    hide Step, SpillInto, LooksLike, Press, HandOver;
    KeyParts(w, e.c);
    SpillBound(w, e);
    SpillShows(w.terms[0].screen.cells, Spill(w, e).value, Color(w.fg), e.c);
  }

  /** One event changes the terminal it is aimed at, as StepLocal says, and no other; only terminal 0's cells
      can differ, and do so exactly when a spill is to be seen. */
  lemma StepIsLocal(w: World, e: Event, t: nat)
    requires Good(w) && Allowed(w, e) && t < TERMS
    ensures var expected := StepAimed(w.terms[t], Color(t), Aim(Route(w.fg, w.task), e, t));
      && Alike(expected, Step(w, e).terms[t])
      && (Step(w, e).terms[t] == expected <==> t != 0 || Unseen(w, e))
  {
    hide Step, StepLocal, Aim, Spill;
    if t == 0 && SpillsBehind(w, e) {
      SpillReachesCells(w, e);
    } else {
      StepWithoutSpill(w, e, t);
    }
  }

  /** A spill changes the cells exactly when its cell does not look like the echo yet. */
  lemma SpillShows(cells: seq<Cell>, i: int, color: byte, c: byte)
    requires 0 <= i < |cells|
    ensures SpillInto(cells, i, color, c) == cells <==> LooksLike(cells[i], color, c)
  {
    if LooksLike(cells[i], color, c) {
      assert SpillInto(cells, i, color, c) == cells;
    } else {
      assert SpillInto(cells, i, color, c)[i] != cells[i];
    }
  }

  lemma RouteFollows(w: World, e: Event)
    requires Good(w) && Allowed(w, e)
    ensures Redirect(Route(w.fg, w.task), e) == Route(Step(w, e).fg, Step(w, e).task)
  {
    hide Press, HandOver, Putc, Spill, ClearTerm, Remaining;
  }

  /** The foreground terminal is the target of the last valid switch, and the active task that of the last
      dispatch; nothing else moves either. */
  lemma {:induction false} FocusAfterRun(w: World, es: seq<Event>)
    requires Good(w) && Possible(w, es)
    ensures var end := Run(w, es);
      && ((forall k :: 0 <= k < |es| ==> !IsSwitch(es[k])) ==> end.fg == w.fg)
      && ((forall k :: 0 <= k < |es| ==> !es[k].Dispatch?) ==> end.task == w.task)
      && (forall k :: 0 <= k < |es| && IsSwitch(es[k]) && (forall j :: k < j < |es| ==> !IsSwitch(es[j])) ==>
            end.fg == es[k].t)
      && (forall k :: 0 <= k < |es| && es[k].Dispatch? && (forall j :: k < j < |es| ==> !es[j].Dispatch?) ==>
            end.task == es[k].t)
    decreases |es|
  {
    hide Step;
    if es != [] {
      var w1, rest := Step(w, es[0]), es[1..];
      RouteFollows(w, es[0]);
      FocusAfterRun(w1, rest);
      assert forall k :: 0 < k < |es| ==> es[k] == rest[k - 1];
    }
  }

  predicate IsSwitch(e: Event) {
    e.Switch? && e.t < TERMS
  }

  /** How a run looks to a terminal, in terms of its first event. */
  lemma ReplayStep(w: World, es: seq<Event>, t: nat)
    requires Good(w) && Possible(w, es) && es != [] && t < TERMS
    ensures var w1 := Step(w, es[0]);
      Replay(w.terms[t], Color(t), AimedAt(Route(w.fg, w.task), es, t))
      == Replay(StepAimed(w.terms[t], Color(t), Aim(Route(w.fg, w.task), es[0], t)), Color(t),
                AimedAt(Route(w1.fg, w1.task), es[1..], t))
  {
    hide Step, StepLocal;
    var w1, route := Step(w, es[0]), Route(w.fg, w.task);
    RouteFollows(w, es[0]);
    var first, rest := Aim(route, es[0], t), AimedAt(Route(w1.fg, w1.task), es[1..], t);
    if first == [] {
      assert first + rest == rest;
    } else {
      assert (first + rest)[1..] == rest;
    }
  }

  /** Non-interference: after any interleaving, a terminal's screen, cursor, key buffer and release flag are
      what the events aimed at it alone produce. Terminal 0 needs that nothing is to be seen of spills. */
  lemma {:induction false} NonInterference(w: World, es: seq<Event>, t: nat)
    requires Good(w) && Possible(w, es) && t < TERMS && (t == 0 ==> SpillsUnseen(w, es))
    ensures Run(w, es).terms[t] == Replay(w.terms[t], Color(t), AimedAt(Route(w.fg, w.task), es, t))
    decreases |es|
  {
    hide Step, StepAimed, Aim;
    if es != [] {
      ReplayStep(w, es, t);
      StepIsLocal(w, es[0], t);
      NonInterference(Step(w, es[0]), es[1..], t);
    }
  }

  /** At every step along the run, terminal t is what the event aimed at it makes of it, if there is one. */
  ghost predicate OwnAlong(w: World, es: seq<Event>, t: nat)
    requires Good(w) && Possible(w, es) && t < TERMS
    decreases |es|
  {
    es == [] ||
    (Step(w, es[0]).terms[t] == StepAimed(w.terms[t], Color(t), Aim(Route(w.fg, w.task), es[0], t))
     && OwnAlong(Step(w, es[0]), es[1..], t))
  }

  /** A terminal is its own all along a run exactly when it is not terminal 0 or nothing is to be seen of spills. */
  lemma {:induction false} OwnAlongIff(w: World, es: seq<Event>, t: nat)
    requires Good(w) && Possible(w, es) && t < TERMS
    ensures OwnAlong(w, es, t) <==> t != 0 || SpillsUnseen(w, es)
    decreases |es|
  {
    hide Step, StepAimed, Aim, Unseen;
    if es != [] {
      StepIsLocal(w, es[0], t);
      OwnAlongIff(Step(w, es[0]), es[1..], t);
    }
  }

  /** Terminals 1 and 2 are never interfered with. */
  lemma UpperTerminalsAreTheirOwn(w: World, es: seq<Event>, t: nat)
    requires Good(w) && Possible(w, es) && 0 < t < TERMS
    ensures Run(w, es).terms[t] == Replay(w.terms[t], Color(t), AimedAt(Route(w.fg, w.task), es, t))
  {
    NonInterference(w, es, t);
  }

  lemma AddKeepsAlike(a: Term, b: Term, color: byte, c: byte)
    requires Sound(a) && Sound(b) && Alike(a, b)
    ensures Alike(AddChar(a, color, c), AddChar(b, color, c))
  {
    hide FirstNul, Write, Scrolled, VideoIndex;
  }

  lemma PrintKeepsAlike(a: Term, b: Term, color: byte, c: byte)
    requires Sound(a) && Sound(b) && Alike(a, b)
    ensures Alike(a.(screen := Putc(a.screen, color, c)), b.(screen := Putc(b.screen, color, c)))
  {
    hide Scrolled;
  }

  /** What an event does to cursor, key buffer and flag does not depend on the cells. */
  lemma StepKeepsAlike(a: Term, b: Term, color: byte, e: Local)
    requires Sound(a) && Sound(b) && Alike(a, b)
    ensures Alike(StepLocal(a, color, e), StepLocal(b, color, e))
  {
    hide AddChar, Putc, FirstNul, Erase, Sound;
    match e
    case Print(c) => PrintKeepsAlike(a, b, color, c);
    case Type(c) => AddKeepsAlike(a, b, color, c);
    case _ =>
  }

  lemma {:induction false} ReplayKeepsAlike(a: Term, b: Term, color: byte, es: seq<Local>)
    requires Sound(a) && Sound(b) && Alike(a, b)
    ensures Alike(Replay(a, color, es), Replay(b, color, es))
    decreases |es|
  {
    hide StepLocal, Alike;
    if es != [] {
      StepKeepsAlike(a, b, color, es[0]);
      ReplayKeepsAlike(StepLocal(a, color, es[0]), StepLocal(b, color, es[0]), color, es[1..]);
    }
  }

  /** Whatever spills, every terminal's cursor, key buffer and release flag are its own. */
  lemma {:induction false} OnlyCellsAreSpilled(w: World, es: seq<Event>, t: nat)
    requires Good(w) && Possible(w, es) && t < TERMS
    ensures Alike(Replay(w.terms[t], Color(t), AimedAt(Route(w.fg, w.task), es, t)), Run(w, es).terms[t])
    decreases |es|
  {
    hide Step, StepAimed, Aim;
    if es != [] {
      var w1 := Step(w, es[0]);
      var expected := StepAimed(w.terms[t], Color(t), Aim(Route(w.fg, w.task), es[0], t));
      ReplayStep(w, es, t);
      StepIsLocal(w, es[0], t);
      OnlyCellsAreSpilled(w1, es[1..], t);
      ReplayKeepsAlike(expected, w1.terms[t], Color(t), AimedAt(Route(w1.fg, w1.task), es[1..], t));
    }
  }

  /** Exactly when a key leaves every other terminal alone: it does not spill behind the screen, or the cell of
      terminal 0 it spills on already looks like its echo. */
  lemma KeyIsLocalIff(w: World, c: byte)
    requires Good(w) && c != NUL
    ensures (forall t :: 0 <= t < TERMS && t != w.fg ==> Step(w, Key(c)).terms[t] == w.terms[t])
       <==> Unseen(w, Key(c))
  {
    hide Step, Unseen, StepLocal;
    StepIsLocal(w, Key(c), 0);
    StepIsLocal(w, Key(c), 1);
    StepIsLocal(w, Key(c), 2);
    ForegroundIsUnseen(w, c);
  }

  /** What a key does to the first terminal's buffer behind the screen: a character is written, or the last one of
      the line erased, at the cell its index asks for, counted from cell 2048; no other cell changes. */
  lemma KeyBehindScreen(w: World, c: byte)
    requires Good(w) && w.fg != 0 && c != NUL
    ensures var t, cells, cells1 := w.terms[w.fg], w.terms[0].screen.cells, Step(w, Key(c)).terms[0].screen.cells;
      var n := StrLen(t.kb);
      var end := 80 * t.screen.y + t.screen.x + n - 2048;
      forall j :: 0 <= j < CELLS ==>
        cells1[j] == if c == BACKSPACE && n > 0 && j == end - 1 then Cell(SPACE, cells[j].attr)
                     else if c != BACKSPACE && c != NEWLINE && n < KB_SIZE - 1 && j == end then Cell(c, Color(w.fg))
                     else cells[j]
  {
    hide Step, Press, FirstNul, HandOver;
    KeyParts(w, c);
  }

  lemma ForegroundIsUnseen(w: World, c: byte)
    requires Good(w)
    ensures w.fg == 0 ==> Unseen(w, Key(c))
  {
  }

  /** Printing is never misdirected, whatever is in the foreground: a terminal that starts cleared and only
      receives output shows the window on its own canvas. */
  lemma OutputShowsCanvas(w: World, es: seq<Event>, t: nat, text: seq<byte>)
    requires Good(w) && Possible(w, es) && t < TERMS && (t == 0 ==> SpillsUnseen(w, es))
    requires w.terms[t].screen == Cleared(Color(t))
    requires AimedAt(Route(w.fg, w.task), es, t) == Prints(text)
    ensures Canvas.Shows(Run(w, es).terms[t].screen, Canvas.Rows(text), Color(t))
  {
    NonInterference(w, es, t);
    PrintsPut(w.terms[t], Color(t), text);
    Canvas.ScreenShowsCanvas(Color(t), text);
  }

  function Prints(text: seq<byte>): (r: seq<Local>)
    ensures |r| == |text| && forall i :: 0 <= i < |text| ==> r[i] == Print(text[i])
  {
    seq(|text|, i requires 0 <= i < |text| => Print(text[i]))
  }

  lemma {:induction false} PrintsPut(t: Term, color: byte, text: seq<byte>)
    requires Sound(t)
    ensures Replay(t, color, Prints(text)) == t.(screen := PutAll(t.screen, color, text))
    decreases |text|
  {
    if text != [] {
      assert Prints(text)[1..] == Prints(text[1..]);
      PrintsPut(StepLocal(t, color, Print(text[0])), color, text[1..]);
    }
  }
}
