/** Properties of whole runs: saved contexts, execute/halt bracketing and the scheduler's rotation. */
module ProcessRuns {
  import opened Basics
  import opened Layout
  import opened ProcessSpec
  import opened ProcessForest

  /** One step writes only to the running task's tail block and to slots that were free. */
  lemma StepWritesOnlyTail(s: Sys, step: Step, i: nat)
    requires Forest(s) && Enabled(s, step)
    requires i < MAX_PROCESSES && s.usage[i]
    requires Occupied(s, s.active) ==> i != Tail(s, s.active)
    ensures Next(s, step).pcbs[i] == s.pcbs[i]
  {
  }

  /** A chain other than the running task's never changes, except that a tick may start an empty one. */
  lemma StepKeepsOtherChains(s: Sys, step: Step, t: nat)
    requires Forest(s) && Enabled(s, step)
    requires t < TERM_SIZE && t != s.active
    ensures Occupied(s, t) || Next(s, step).active != t ==> Next(s, step).chains[t] == s.chains[t]
  {
  }

  /** The tail of an occupied chain is in use and lies on no other chain. */
  lemma TailIsOwn(s: Sys, t: nat)
    requires Forest(s) && t < TERM_SIZE && Occupied(s, t)
    ensures s.usage[Tail(s, t)]
    ensures forall u :: 0 <= u < TERM_SIZE && u != t ==> Tail(s, t) !in s.chains[u]
  {
    assert Tail(s, t) in s.chains[t];
    assert OnSomeChain(s, Tail(s, t));
  }

  // ---------- context preservation ----------

  /** Terminal t is not the active task anywhere along the run. */
  ghost predicate AwayFrom(s: Sys, steps: seq<Step>, t: nat)
    requires Shape(s) && Possible(s, steps)
    decreases |steps|
  {
    s.active != t && (steps != [] ==> AwayFrom(Next(s, steps[0]), steps[1..], t))
  }

  lemma {:induction false} SuspendedTailIsKept(s: Sys, steps: seq<Step>, t: nat)
    requires Forest(s) && Possible(s, steps) && NoLeak(s, steps)
    requires t < TERM_SIZE && Occupied(s, t) && AwayFrom(s, steps, t)
    ensures Run(s, steps).chains[t] == s.chains[t]
    ensures Run(s, steps).pcbs[Tail(s, t)] == s.pcbs[Tail(s, t)]
    decreases |steps|
  {
    if steps != [] {
      var s1 := Next(s, steps[0]);
      StepKeepsForest(s, steps[0]);
      StepKeepsOtherChains(s, steps[0], t);
      TailIsOwn(s, t);
      if Occupied(s, s.active) {
        assert Tail(s, s.active) in s.chains[s.active];
      }
      StepWritesOnlyTail(s, steps[0], Tail(s, t));
      SuspendedTailIsKept(s1, steps[1..], t);
    }
  }

  /** What the outgoing task keeps when it is switched out. */
  lemma SwitchOut(s: Sys, saved: Context, entry: Context)
    requires Forest(s) && Occupied(s, s.active)
    ensures var out := Tick(s, saved, entry).sys;
      && Forest(out) && out.active == (s.active + 1) % TERM_SIZE
      && out.chains[s.active] == s.chains[s.active]
      && out.pcbs[Tail(s, s.active)].switched == saved
  {
    StepKeepsForest(s, Timer(saved, entry));
    TailIsOwn(s, s.active);
  }

  /** The ESP/EBP a tick loads for a terminal are those saved by the tick that last switched it out,
      whatever the other terminals did in between. */
  lemma ContextIsPreserved(s: Sys, saved: Context, entry: Context, out: Sys, steps: seq<Step>,
                           saved': Context, entry': Context)
    requires Forest(s) && Occupied(s, s.active) && out == Tick(s, saved, entry).sys
    requires Possible(out, steps) && NoLeak(out, steps) && AwayFrom(out, steps, s.active)
    requires var end := Run(out, steps); Occupied(end, end.active) && (end.active + 1) % TERM_SIZE == s.active
    ensures var resumed := Tick(Run(out, steps), saved', entry');
      resumed.outcome == Loaded(saved) && resumed.sys.active == s.active
  {
    SwitchOut(s, saved, entry);
    ResumeLoads(out, s.active, steps, saved', entry');
  }

  lemma ResumeLoads(out: Sys, t: nat, steps: seq<Step>, saved': Context, entry': Context)
    requires Forest(out) && t < TERM_SIZE && Occupied(out, t)
    requires Possible(out, steps) && NoLeak(out, steps) && AwayFrom(out, steps, t)
    requires var end := Run(out, steps); Occupied(end, end.active) && (end.active + 1) % TERM_SIZE == t
    ensures var resumed := Tick(Run(out, steps), saved', entry');
      resumed.outcome == Loaded(out.pcbs[Tail(out, t)].switched) && resumed.sys.active == t
  {
    SuspendedTailIsKept(out, steps, t);
    TickLoads(Run(out, steps), t, saved', entry');
  }

  lemma TickLoads(s: Sys, t: nat, saved: Context, entry: Context)
    requires Shape(s) && Occupied(s, s.active) && t == (s.active + 1) % TERM_SIZE && Occupied(s, t)
    ensures Tick(s, saved, entry).outcome == Loaded(s.pcbs[Tail(s, t)].switched)
    ensures Tick(s, saved, entry).sys.active == t
  {
  }

  // ---------- bracketing ----------

  /** Terminal t has more than depth processes all along the run: no halt returns past that depth. */
  ghost predicate StaysAbove(s: Sys, steps: seq<Step>, t: nat, depth: nat)
    requires Shape(s) && Possible(s, steps) && t < TERM_SIZE
    decreases |steps|
  {
    |s.chains[t]| > depth && (steps != [] ==> StaysAbove(Next(s, steps[0]), steps[1..], t, depth))
  }

  /** While a chain stays longer than depth, its processes up to there keep their places. */
  lemma StepKeepsPlaces(s: Sys, step: Step, t: nat, depth: nat)
    requires Forest(s) && Enabled(s, step) && t < TERM_SIZE
    requires |s.chains[t]| > depth && |Next(s, step).chains[t]| > depth
    ensures Next(s, step).chains[t][..depth] == s.chains[t][..depth]
    ensures depth > 0 ==> Next(s, step).chains[t][depth] == s.chains[t][depth]
  {
    hide OnSomeChain, NoDup;
    if t != s.active {
      StepKeepsOtherChains(s, step, t);
    }
  }

  /** The first depth processes of such a chain are not written to. */
  lemma StepKeepsAncestors(s: Sys, step: Step, t: nat, depth: nat)
    requires Forest(s) && Enabled(s, step) && t < TERM_SIZE
    requires |s.chains[t]| > depth && |Next(s, step).chains[t]| > depth
    ensures Next(s, step).chains[t][..depth] == s.chains[t][..depth]
    ensures forall i :: i in s.chains[t][..depth] ==> Next(s, step).pcbs[i] == s.pcbs[i]
  {
    hide Next, Enabled;
    StepKeepsPlaces(s, step, t, depth);
    forall i | i in s.chains[t][..depth] ensures Next(s, step).pcbs[i] == s.pcbs[i] {
      assert i in s.chains[t] && OnSomeChain(s, i);
      if Occupied(s, s.active) {
        assert Tail(s, s.active) in s.chains[s.active];
        assert i != Tail(s, s.active);
      }
      StepWritesOnlyTail(s, step, i);
    }
  }

  /** A running process that keeps its place and has a parent keeps its entry context. */
  lemma StepKeepsTailEntry(s: Sys, step: Step)
    requires Forest(s) && Enabled(s, step) && Occupied(s, s.active)
    requires 1 < |s.chains[s.active]| <= |Next(s, step).chains[s.active]|
    ensures Next(s, step).pcbs[Tail(s, s.active)].entry == s.pcbs[Tail(s, s.active)].entry
  {
    TailIsOwn(s, s.active);
    hide Forest;
  }

  /** The process just above depth stays where it is, with the entry context it started with. */
  lemma StepKeepsBracket(s: Sys, step: Step, t: nat, depth: nat)
    requires Forest(s) && Enabled(s, step) && t < TERM_SIZE
    requires 0 < depth < |s.chains[t]| && depth < |Next(s, step).chains[t]|
    ensures Next(s, step).chains[t][depth] == s.chains[t][depth]
    ensures Next(s, step).pcbs[s.chains[t][depth]].entry == s.pcbs[s.chains[t][depth]].entry
  {
    hide Next, Enabled;
    StepKeepsPlaces(s, step, t, depth);
    OnePlace(s, t, depth, t, depth);
    if Occupied(s, s.active) && s.chains[t][depth] == Tail(s, s.active) {
      OnePlace(s, t, depth, s.active, |s.chains[s.active]| - 1);
      StepKeepsTailEntry(s, step);
    } else {
      StepWritesOnlyTail(s, step, s.chains[t][depth]);
    }
  }

  lemma {:induction false} RunKeepsAncestors(s: Sys, steps: seq<Step>, t: nat, depth: nat)
    requires Forest(s) && Possible(s, steps) && NoLeak(s, steps) && t < TERM_SIZE && 0 < depth
    requires StaysAbove(s, steps, t, depth)
    ensures |Run(s, steps).chains[t]| > depth
    ensures Run(s, steps).chains[t][..depth] == s.chains[t][..depth]
    ensures Run(s, steps).chains[t][depth] == s.chains[t][depth]
    ensures Run(s, steps).pcbs[s.chains[t][depth]].entry == s.pcbs[s.chains[t][depth]].entry
    ensures forall i :: i in s.chains[t][..depth] ==> Run(s, steps).pcbs[i] == s.pcbs[i]
    decreases |steps|
  {
    if steps != [] {
      StepKeepsForest(s, steps[0]);
      StepKeepsAncestors(s, steps[0], t, depth);
      StepKeepsBracket(s, steps[0], t, depth);
      RunKeepsAncestors(Next(s, steps[0]), steps[1..], t, depth);
    }
  }

  /** halt with a parent: the chain loses its last process, the registers become the parent's. */
  lemma HaltReturns(s: Sys, entry: Context, c: seq<nat>, n: nat)
    requires Shape(s) && s.chains[s.active] == c + [n] && c != [] && n !in c
    ensures var end := Halt(s, entry);
      && end.sys.chains[s.active] == c && end.sys.active == s.active
      && (forall i :: i in c ==> end.sys.pcbs[i] == s.pcbs[i])
      && end.sys.pde == PageEntry(s.pcbs[Last(c)].page) && end.sys.esp0 == s.pcbs[Last(c)].kStack
      && end.outcome == Resumed(s.pcbs[n].entry)
  {
    assert (c + [n])[..|c|] == c;
  }

  /** A successful execute puts one process behind the caller's chain and leaves the blocks on it alone. */
  lemma ExecuteExtends(s: Sys, entry: Context)
    requires Inv(s) && Occupied(s, s.active) && FirstFree(s.usage, 0).Some?
    ensures var s1, c := Execute(s, Runnable, entry).sys, s.chains[s.active];
      && Forest(s1) && |s1.chains[s.active]| == |c| + 1 && s1.chains[s.active][..|c|] == c
      && (forall i :: i in c ==> s1.pcbs[i] == s.pcbs[i])
      && s1.pcbs[s1.chains[s.active][|c|]].entry == entry
      && s.pde == PageEntry(s.pcbs[Last(c)].page) && s.esp0 == s.pcbs[Last(c)].kStack
  {
    var c := s.chains[s.active];
    ExecuteKeepsForest(s, Runnable, entry);
    forall i | i in c ensures s.usage[i] {
      assert OnSomeChain(s, i);
    }
    TailIsOwn(s, s.active);
  }

  /** From a successful execute to the halt that returns from it, everything the caller can see comes back:
      its terminal's chain, every block on it (descriptors, saved contexts), the user page entry and esp0;
      and the halt resumes the very context of the execute call. */
  lemma ExecuteHaltBracket(s: Sys, entry: Context, steps: seq<Step>, entry': Context)
    requires Inv(s) && Occupied(s, s.active) && FirstFree(s.usage, 0).Some?
    requires var s1 := Execute(s, Runnable, entry).sys;
      && Possible(s1, steps) && NoLeak(s1, steps)
      && StaysAbove(s1, steps, s.active, |s.chains[s.active]|)
      && var s2 := Run(s1, steps);
         s2.active == s.active && |s2.chains[s.active]| == |s.chains[s.active]| + 1
    ensures var end := Halt(Run(Execute(s, Runnable, entry).sys, steps), entry');
      && end.sys.chains[s.active] == s.chains[s.active]
      && (forall i :: i in s.chains[s.active] ==> end.sys.pcbs[i] == s.pcbs[i])
      && end.sys.pde == s.pde && end.sys.esp0 == s.esp0 && end.sys.active == s.active
      && end.outcome == Resumed(entry)
  {
    hide Execute, Halt, Run, Possible, NoLeak, Next, StaysAbove, OnSomeChain, NoDup, Matched;
    var t, c := s.active, s.chains[s.active];
    var s1 := Execute(s, Runnable, entry).sys;
    var s2 := Run(s1, steps);
    ExecuteExtends(s, entry);
    RunKeepsForest(s1, steps);
    RunKeepsAncestors(s1, steps, t, |c|);
    var n := s2.chains[t][|c|];
    assert s2.chains[t] == s2.chains[t][..|c|] + [n];
    NotBefore(s2, t, |c|);
    HaltReturns(s2, entry', c, n);
    assert Last(c) in c;
  }

  lemma NotBefore(s: Sys, t: nat, k: nat)
    requires Forest(s) && t < TERM_SIZE && k < |s.chains[t]|
    ensures s.chains[t][k] !in s.chains[t][..k]
  {
  }

  // ---------- rotation ----------

  ghost predicate AllOccupied(s: Sys) {
    Shape(s) && Occupied(s, 0) && Occupied(s, 1) && Occupied(s, 2)
  }

  /** halt never empties a terminal: a base shell is replaced in the slot it gave back or a lower one. */
  lemma StepKeepsOccupied(s: Sys, step: Step, t: nat)
    requires Forest(s) && Enabled(s, step) && t < TERM_SIZE && Occupied(s, t)
    ensures Occupied(Next(s, step), t)
  {
    if step.Exit? && t == s.active && |s.chains[t]| == 1 {
      GiveBackKeepsForest(s);
      assert !GiveBack(s).usage[Tail(s, t)];
    }
  }

  lemma {:induction false} RunKeepsOccupied(s: Sys, steps: seq<Step>, t: nat)
    requires Forest(s) && Possible(s, steps) && NoLeak(s, steps) && t < TERM_SIZE && Occupied(s, t)
    ensures Occupied(Run(s, steps), t)
    decreases |steps|
  {
    if steps != [] {
      StepKeepsForest(s, steps[0]);
      StepKeepsOccupied(s, steps[0], t);
      RunKeepsOccupied(Next(s, steps[0]), steps[1..], t);
    }
  }

  ghost function Ticks(steps: seq<Step>): nat {
    if steps == [] then 0 else (if steps[0].Timer? then 1 else 0) + Ticks(steps[1..])
  }

  /** How often a tick along the run makes terminal t the active task. */
  ghost function Turns(s: Sys, steps: seq<Step>, t: nat): nat
    requires Shape(s) && Possible(s, steps)
    decreases |steps|
  {
    if steps == [] then 0
    else
      (if steps[0].Timer? && Next(s, steps[0]).active == t then 1 else 0) + Turns(Next(s, steps[0]), steps[1..], t)
  }

  /** How often the rotation starting after task a reaches t within n turns. */
  ghost function RoundRobin(a: nat, n: nat, t: nat): nat {
    if n == 0 then 0 else (if (a + n) % TERM_SIZE == t then 1 else 0) + RoundRobin(a, n - 1, t)
  }

  lemma {:induction false} RoundRobinShift(a: nat, n: nat, t: nat)
    requires n > 0 && a < TERM_SIZE
    ensures RoundRobin(a, n, t)
         == (if (a + 1) % TERM_SIZE == t then 1 else 0) + RoundRobin((a + 1) % TERM_SIZE, n - 1, t)
  {
    assert (a + n) % TERM_SIZE == ((a + 1) % TERM_SIZE + n - 1) % TERM_SIZE;
    if n > 1 {
      RoundRobinShift(a, n - 1, t);
    }
  }

  lemma {:induction false} RoundRobinIsFair(a: nat, k: nat, t: nat)
    requires a < TERM_SIZE && t < TERM_SIZE
    ensures RoundRobin(a, 3 * k, t) == k
  {
    if k > 0 {
      RoundRobinIsFair(a, k - 1, t);
      RoundRobinRound(a, 3 * (k - 1), t);
    }
  }

  /** Three turns in a row reach t once. */
  lemma RoundRobinRound(a: nat, n: nat, t: nat)
    requires t < TERM_SIZE
    ensures RoundRobin(a, n + 3, t) == RoundRobin(a, n, t) + 1
  {
    assert RoundRobin(a, n + 3, t) == (if (a + n + 3) % TERM_SIZE == t then 1 else 0) + RoundRobin(a, n + 2, t);
    assert RoundRobin(a, n + 2, t) == (if (a + n + 2) % TERM_SIZE == t then 1 else 0) + RoundRobin(a, n + 1, t);
    assert RoundRobin(a, n + 1, t) == (if (a + n + 1) % TERM_SIZE == t then 1 else 0) + RoundRobin(a, n, t);
  }

  lemma StepRotates(s: Sys, step: Step)
    requires Forest(s) && AllOccupied(s) && Enabled(s, step) && !LeaksSlot(s, step)
    ensures AllOccupied(Next(s, step))
    ensures Next(s, step).active == if step.Timer? then (s.active + 1) % TERM_SIZE else s.active
  {
    StepKeepsOccupied(s, step, 0);
    StepKeepsOccupied(s, step, 1);
    StepKeepsOccupied(s, step, 2);
  }

  lemma StepRotatesSafely(s: Sys, steps: seq<Step>)
    requires Forest(s) && AllOccupied(s) && Possible(s, steps) && NoLeak(s, steps) && steps != []
    ensures var s1 := Next(s, steps[0]);
      && Forest(s1) && AllOccupied(s1) && Possible(s1, steps[1..]) && NoLeak(s1, steps[1..])
      && s1.active == if steps[0].Timer? then (s.active + 1) % TERM_SIZE else s.active
  {
    StepKeepsForest(s, steps[0]);
    StepRotates(s, steps[0]);
  }

  lemma UnfoldTurns(s: Sys, steps: seq<Step>, t: nat)
    requires Forest(s) && AllOccupied(s) && Possible(s, steps)
    ensures Shape(s) && RoundRobin(s.active, 0, t) == 0 && s.active < TERM_SIZE
    ensures steps != [] ==> Enabled(s, steps[0]) && Shape(Next(s, steps[0])) && Possible(Next(s, steps[0]), steps[1..])
    ensures Ticks(steps) == if steps == [] then 0 else (if steps[0].Timer? then 1 else 0) + Ticks(steps[1..])
  {
    hide Next, Chained, Enabled;
  }

  lemma {:induction false} TurnsFollowRotation(s: Sys, steps: seq<Step>, t: nat)
    requires Forest(s) && AllOccupied(s) && Possible(s, steps) && NoLeak(s, steps)
    ensures Turns(s, steps, t) == RoundRobin(s.active, Ticks(steps), t)
    decreases |steps|
  {
    hide Next, Forest, AllOccupied, Possible, RoundRobin;
    UnfoldTurns(s, steps, t);
    if steps != [] {
      StepRotatesSafely(s, steps);
      TurnsFollowRotation(Next(s, steps[0]), steps[1..], t);
      if steps[0].Timer? {
        RoundRobinShift(s.active, Ticks(steps), t);
      }
    }
  }

  /** Once every terminal has a process, no terminal empties again and any 3k ticks give each terminal
      exactly k turns, whatever system calls run between them. */
  lemma SchedulerIsFair(s: Sys, steps: seq<Step>, k: nat, t: nat)
    requires Forest(s) && AllOccupied(s) && Possible(s, steps) && NoLeak(s, steps)
    requires Ticks(steps) == 3 * k && t < TERM_SIZE
    ensures AllOccupied(Run(s, steps))
    ensures Turns(s, steps, t) == k
  {
    RunKeepsOccupied(s, steps, 0);
    RunKeepsOccupied(s, steps, 1);
    RunKeepsOccupied(s, steps, 2);
    TurnsFollowRotation(s, steps, t);
    RoundRobinIsFair(s.active, k, t);
  }

  lemma {:induction false} NoTickNoSwitch(s: Sys, steps: seq<Step>, t: nat)
    requires Forest(s) && Possible(s, steps) && NoLeak(s, steps) && Ticks(steps) == 0
    requires t < TERM_SIZE
    ensures Run(s, steps).active == s.active
    ensures t != s.active ==> Run(s, steps).chains[t] == s.chains[t]
    decreases |steps|
  {
    if steps != [] {
      StepKeepsForest(s, steps[0]);
      NoTickNoSwitch(Next(s, steps[0]), steps[1..], t);
    }
  }

  /** A tick leaves the scheduler on a live terminal exactly when the next one has a process or can get one. */
  lemma TickStaysLive(s: Sys, saved: Context, entry: Context)
    requires Shape(s) && Occupied(s, s.active)
    ensures var s1 := Tick(s, saved, entry).sys;
      Occupied(s1, s1.active) <==> Occupied(s, (s.active + 1) % TERM_SIZE) || FirstFree(s.usage, 0).Some?
  {
  }

  /** On an empty terminal with no free slot, nothing happens any more: no tick, no call changes anything. (The
      process that was interrupted there runs on; its halt would have no block to look at and is not a step.) */
  lemma {:induction false} StallIsForever(s: Sys, steps: seq<Step>)
    requires Shape(s) && !Occupied(s, s.active) && FirstFree(s.usage, 0).None? && Possible(s, steps)
    ensures Run(s, steps) == s
    decreases |steps|
  {
    if steps != [] {
      assert Next(s, steps[0]) == s;
      StallIsForever(s, steps[1..]);
    }
  }

  // ---------- the invariant along a run ----------

  ghost predicate InvAlong(s: Sys, steps: seq<Step>)
    requires Shape(s) && Possible(s, steps)
    decreases |steps|
  {
    Inv(s) && (steps != [] ==> InvAlong(Next(s, steps[0]), steps[1..]))
  }

  /** The active terminal has a process, or the scheduler stopped on an empty one because no slot was free. */
  ghost predicate Settled(s: Sys)
    requires Shape(s)
  {
    Occupied(s, s.active) || FirstFree(s.usage, 0).None?
  }

  lemma StepKeepsSettled(s: Sys, step: Step)
    requires Forest(s) && Enabled(s, step) && Settled(s)
    ensures Settled(Next(s, step))
  {
    if !Occupied(s, s.active) {
      StallIsForever(s, [step]);
    } else if step.Timer? {
      TickStaysLive(s, step.saved, step.entry);
    } else {
      StepKeepsOccupied(s, step, s.active);
    }
  }

  /** From start-up on, once the first shell runs: the whole invariant holds all along a run exactly when no step
      of the run leaks a slot. */
  lemma {:induction false} RunKeepsInvIff(s: Sys, steps: seq<Step>)
    requires Inv(s) && Settled(s) && Possible(s, steps)
    ensures InvAlong(s, steps) <==> NoLeak(s, steps)
    decreases |steps|
  {
    if steps != [] {
      StepKeepsSettled(s, steps[0]);
      hide Next, Forest, Matched, Agreement;
      if LeaksSlot(s, steps[0]) {
        LeakBreaksAgreement(s, steps[0]);
      } else {
        StepKeepsInv(s, steps[0]);
        RunKeepsInvIff(Next(s, steps[0]), steps[1..]);
      }
    }
  }

  // ---------- start-up ----------

  lemma TickEnters(s: Sys, tick: Step)
    requires Forest(s) && tick.Timer? && Occupied(s, s.active) && !Occupied(s, (s.active + 1) % TERM_SIZE)
    ensures var s1 := Next(s, tick);
      && Forest(s1) && s1.active == (s.active + 1) % TERM_SIZE
      && (Occupied(s1, s1.active) <==> FirstFree(s.usage, 0).Some?)
      && (forall t :: 0 <= t < TERM_SIZE && t != s1.active ==> s1.chains[t] == s.chains[t])
      && (FirstFree(s.usage, 0).None? ==> s1.usage == s.usage)
  {
    StepKeepsForest(s, tick);
    hide Forest, FirstFree;
  }

  /** A tick into an empty terminal populates it, or stalls the scheduler there for good. */
  lemma TickIntoEmpty(s: Sys, tick: Step, calls: seq<Step>)
    requires Forest(s) && tick.Timer? && Occupied(s, s.active) && !Occupied(s, (s.active + 1) % TERM_SIZE)
    requires Possible(Next(s, tick), calls) && NoLeak(Next(s, tick), calls) && Ticks(calls) == 0
    ensures var end := Run(Next(s, tick), calls);
      && Forest(end) && end.active == (s.active + 1) % TERM_SIZE
      && (Occupied(end, end.active) <==> FirstFree(s.usage, 0).Some?)
      && (forall t :: 0 <= t < TERM_SIZE && t != end.active ==> end.chains[t] == s.chains[t])
      && (FirstFree(s.usage, 0).None? ==> FirstFree(end.usage, 0).None?)
  {
    hide Next, Run, Possible, NoLeak, FirstFree, OnSomeChain, NoDup;
    var s1 := Next(s, tick);
    TickEnters(s, tick);
    RunKeepsForest(s1, calls);
    forall t | 0 <= t < TERM_SIZE && t != s1.active
      ensures Run(s1, calls).active == s1.active && Run(s1, calls).chains[t] == s1.chains[t]
    {
      NoTickNoSwitch(s1, calls, t);
    }
    NoTickNoSwitch(s1, calls, s1.active);
    if FirstFree(s.usage, 0).Some? {
      RunKeepsOccupied(s1, calls, s1.active);
    } else {
      StallIsForever(s1, calls);
    }
  }

  /** Start-up: after the first shell and any calls it makes, two ticks (with any calls in between)
      populate all three terminals exactly when each of them finds a free slot. */
  lemma StartUp(s: Sys, t1: Step, calls: seq<Step>, t2: Step)
    requires Forest(s) && s.active == 0
    requires Occupied(s, 0) && !Occupied(s, 1) && !Occupied(s, 2)
    requires t1.Timer? && t2.Timer?
    requires Possible(Next(s, t1), calls) && NoLeak(Next(s, t1), calls) && Ticks(calls) == 0
    ensures var s2 := Run(Next(s, t1), calls);
      AllOccupied(Next(s2, t2)) <==> FirstFree(s.usage, 0).Some? && FirstFree(s2.usage, 0).Some?
  {
    hide Run, Possible, NoLeak, Next, OnSomeChain, NoDup;
    TickIntoEmpty(s, t1, calls);
    var s2 := Run(Next(s, t1), calls);
    if Occupied(s2, 1) {
      SecondTick(s2, t2);
    } else {
      StalledTick(s2, t2);
    }
  }

  lemma SecondTick(s: Sys, tick: Step)
    requires Forest(s) && tick.Timer? && s.active == 1 && Occupied(s, 0) && Occupied(s, 1) && !Occupied(s, 2)
    ensures AllOccupied(Next(s, tick)) <==> FirstFree(s.usage, 0).Some?
  {
    TickStaysLive(s, tick.saved, tick.entry);
    StepKeepsOccupied(s, tick, 0);
    StepKeepsOccupied(s, tick, 1);
  }

  lemma StalledTick(s: Sys, tick: Step)
    requires Shape(s) && tick.Timer? && !Occupied(s, s.active)
    ensures !AllOccupied(Next(s, tick))
  {
  }

  /** The first shell is alone on terminal 0 until the first tick. */
  lemma FirstShell(s: Sys, entry: Context, calls: seq<Step>)
    requires Booted(s)
    requires var s0 := Execute(s, Runnable, entry).sys; Possible(s0, calls) && NoLeak(s0, calls) && Ticks(calls) == 0
    ensures var s1 := Run(Execute(s, Runnable, entry).sys, calls);
      Forest(s1) && s1.active == 0 && Occupied(s1, 0) && !Occupied(s1, 1) && !Occupied(s1, 2)
  {
    var s0 := Execute(s, Runnable, entry).sys;
    BootIsSound(s);
    ExecuteKeepsForest(s, Runnable, entry);
    RunKeepsForest(s0, calls);
    RunKeepsOccupied(s0, calls, 0);
    NoTickNoSwitch(s0, calls, 1);
    NoTickNoSwitch(s0, calls, 2);
  }
}
