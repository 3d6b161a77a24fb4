/** Runs from start-up in which one terminal gets in the way of another. */
module Interference {
  import opened Basics
  import opened Screen
  import opened Line
  import opened Typing
  import opened World

  /** A state that some run from start-up leads to. */
  ghost predicate Reachable(w: World) {
    exists es :: Possible(Boot(), es) && Run(Boot(), es) == w
  }

  lemma {:induction false} RunAppends(w: World, a: seq<Event>, e: Event)
    requires Good(w) && Possible(w, a) && Allowed(Run(w, a), e)
    ensures Possible(w, a + [e]) && Run(w, a + [e]) == Step(Run(w, a), e)
    decreases |a|
  {
    hide Step;
    if a == [] {
      assert [] + [e] == [e] && [e][1..] == [];
    } else {
      assert (a + [e])[1..] == a[1..] + [e] && (a + [e])[0] == a[0];
      RunAppends(Step(w, a[0]), a[1..], e);
    }
  }

  lemma ReachStep(w: World, e: Event)
    requires Reachable(w) && Good(w) && Allowed(w, e)
    ensures Reachable(Step(w, e))
  {
    hide Step, Run, Possible;
    var es :| Possible(Boot(), es) && Run(Boot(), es) == w;
    RunAppends(Boot(), es, e);
  }

  /** Terminal 1 in the foreground with a line of n characters, its process running, the cursor at (x, y), and
      terminal 0 as it was at start-up. */
  ghost predicate MidLine(w: World, n: nat, x: int, y: int) {
    && Reachable(w) && Good(w) && w.fg == 1 && w.task == 1 && w.terms[0] == Boot().terms[0]
    && StrLen(w.terms[1].kb) == n && w.terms[1].screen.x == x && w.terms[1].screen.y == y
  }

  lemma Begin() returns (w: World)
    ensures MidLine(w, 0, 0, 0)
  {
    var w0 := Boot();
    BootIsReachable();
    var w1 := Step(w0, Switch(1));
    ReachStep(w0, Switch(1));
    w := Step(w1, Dispatch(1));
    ReachStep(w1, Dispatch(1));
    LengthIs(w.terms[1].kb, 0);
  }

  lemma TypeOne(w: World, n: nat)
    requires MidLine(w, n, 0, 0) && n < KB_SIZE - 1
    ensures MidLine(Step(w, Key(97)), n + 1, 0, 0)
  {
    hide Step, Press, FirstNul, Reachable;
    CharMoves(w.terms[1], Color(1), 97);
    ReachStep(w, Key(97));
    StepIsLocal(w, Key(97), 0);
    StepIsLocal(w, Key(97), 1);
    KeepsRouting(w, Key(97));
  }

  lemma KeepsRouting(w: World, e: Event)
    requires Good(w) && Allowed(w, e) && (e.Key? || e.Put?)
    ensures Step(w, e).fg == w.fg && Step(w, e).task == w.task
  {
    hide Press, Putc, HandOver, AddChar;
  }

  lemma PrintOne(w: World, n: nat, x: int, y: int, c: byte)
    requires MidLine(w, n, x, y)
    requires if c == NEWLINE then y < NUM_ROWS - 1 else !IsBreak(c) && x < NUM_COLS - 1
    ensures if c == NEWLINE then MidLine(Step(w, Put(c)), n, 0, y + 1) else MidLine(Step(w, Put(c)), n, x + 1, y)
  {
    hide Step, FirstNul, Reachable;
    ReachStep(w, Put(c));
    StepIsLocal(w, Put(c), 0);
    StepIsLocal(w, Put(c), 1);
    KeepsRouting(w, Put(c));
  }

  lemma {:induction false} TypeMany(w: World, n: nat, m: nat) returns (w': World)
    requires MidLine(w, n, 0, 0) && n + m < KB_SIZE
    ensures MidLine(w', n + m, 0, 0)
    decreases m
  {
    hide Step, Reachable, FirstNul;
    w' := w;
    if m > 0 {
      TypeOne(w, n);
      w' := TypeMany(Step(w, Key(97)), n + 1, m - 1);
    }
  }

  lemma {:induction false} BreakMany(w: World, n: nat, y: nat, m: nat) returns (w': World)
    requires MidLine(w, n, 0, y) && y + m < NUM_ROWS
    ensures MidLine(w', n, 0, y + m)
    decreases m
  {
    hide Step, Reachable, FirstNul;
    w' := w;
    if m > 0 {
      PrintOne(w, n, 0, y, NEWLINE);
      w' := BreakMany(Step(w, Put(NEWLINE)), n, y + 1, m - 1);
    }
  }

  lemma {:induction false} PrintMany(w: World, n: nat, x: nat, y: int, m: nat) returns (w': World)
    requires MidLine(w, n, x, y) && x + m < NUM_COLS
    ensures MidLine(w', n, x + m, y)
    decreases m
  {
    hide Step, Reachable, FirstNul;
    w' := w;
    if m > 0 {
      PrintOne(w, n, x, y, SPACE);
      w' := PrintMany(Step(w, Put(SPACE)), n, x + 1, y, m - 1);
    }
  }

  /** From start-up: 49 keys on terminal 1, then its process prints the cursor into the last cell; the next key
      lands in the first cell of terminal 0's buffer and changes it. */
  lemma SpillHappens() returns (w: World)
    ensures Reachable(w) && Good(w) && w.fg == 1 && Spill(w, Key(97)) == Some(0)
    ensures Step(w, Key(97)).terms[0] != w.terms[0]
  {
    var w0 := Begin();
    var w1 := TypeMany(w0, 0, 49);
    var w2 := BreakMany(w1, 49, 0, 24);
    w := PrintMany(w2, 49, 0, 24, 79);
    hide Step, FirstNul, Reachable;
    StepIsLocal(w, Key(97), 0);
  }

  /** From start-up: Enter on terminal 0, then a key on terminal 1. After Enter there, terminal 0's reader gets
      terminal 1's line, though nothing was typed on terminal 0. */
  lemma LineIsReadElsewhere(dest: seq<byte>) returns (w: World)
    requires |dest| == KB_SIZE
    ensures Reachable(w) && Good(w) && w.fg == 1 && w.task == 0
    ensures Typed(w.terms[0].kb) == [] && Typed(w.terms[1].kb) == [97]
    ensures var end := Step(w, Key(NEWLINE));
      Allowed(end, Read(KB_SIZE)) && Received(end.intBuf, KB_SIZE, dest)[..2] == [97, NEWLINE]
  {
    hide Step, Typed, FirstNul, Reachable, Received, Servable, Press;
    var w0 := Boot();
    BootIsReachable();
    LengthIs(w0.terms[0].kb, 0);
    LengthIs(w0.terms[1].kb, 0);
    var w1 := Step(w0, Key(NEWLINE));
    EnterHandsOver(w0);
    StepIsLocal(w0, Key(NEWLINE), 1);
    KeepsRouting(w0, Key(NEWLINE));
    ReachStep(w0, Key(NEWLINE));
    var w2 := Step(w1, Switch(1));
    RouteFollows(w1, Switch(1));
    StepIsLocal(w1, Switch(1), 0);
    StepIsLocal(w1, Switch(1), 1);
    ReachStep(w1, Switch(1));
    w := Step(w2, Key(97));
    KeyEdits(w2.terms[1], Color(1), 97);
    StepIsLocal(w2, Key(97), 0);
    StepIsLocal(w2, Key(97), 1);
    KeepsRouting(w2, Key(97));
    ReachStep(w2, Key(97));
    StepIsLocal(w, Key(NEWLINE), 0);
    KeepsRouting(w, Key(NEWLINE));
    ReaderGetsLastLine(w, [], 0, KB_SIZE, dest);
  }

  lemma BootIsReachable()
    ensures Reachable(Boot())
  {
    assert Possible(Boot(), []) && Run(Boot(), []) == Boot();
  }
}
