/** What every step keeps: the chains form a forest over exactly the slots in use, and the CPU's
    address-space registers agree with the running process. */
module ProcessForest {
  import opened Basics
  import opened Layout
  import opened Descriptors
  import opened ProcessSpec

  /** Chains are free of repetition, pairwise disjoint, and hold exactly the slots in use. */
  ghost predicate Chained(s: Sys) {
    && Shape(s)
    && (forall t :: 0 <= t < TERM_SIZE ==> NoDup(s.chains[t]))
    && (forall t, u, i :: 0 <= t < u < TERM_SIZE && i in s.chains[t] ==> i !in s.chains[u])
    && (forall i :: 0 <= i < MAX_PROCESSES ==> (s.usage[i] <==> OnSomeChain(s, i)))
  }

  /** In addition, a block in use carries the pid of its own slot. */
  ghost predicate Forest(s: Sys) {
    && Chained(s)
    && (forall i :: 0 <= i < MAX_PROCESSES && s.usage[i] ==> s.pcbs[i].pid == i)
  }

  ghost predicate OnSomeChain(s: Sys, i: nat)
    requires |s.chains| == TERM_SIZE
  {
    i in s.chains[0] || i in s.chains[1] || i in s.chains[2]
  }

  /** Every process in use has the frame and kernel stack of its own slot. */
  ghost predicate Matched(s: Sys)
    requires Shape(s)
  {
    forall i :: 0 <= i < MAX_PROCESSES && s.usage[i] ==>
      s.pcbs[i].page == Frame(i) && s.pcbs[i].kStack == KernelStack(i)
  }

  /** The user page entry and esp0 are those of the process that is running. */
  ghost predicate Agreement(s: Sys)
    requires Shape(s)
  {
    Occupied(s, s.active) ==>
      s.pde == PageEntry(Frame(Tail(s, s.active))) && s.esp0 == KernelStack(Tail(s, s.active))
  }

  ghost predicate Inv(s: Sys) {
    Forest(s) && Matched(s) && Agreement(s)
  }

  lemma BootIsSound(s: Sys)
    requires Booted(s)
    ensures Inv(s)
  {
  }

  /** A slot has one place: no two positions hold the same one, and a free slot has none. */
  lemma OnePlace(s: Sys, t: nat, k: nat, u: nat, j: nat)
    requires Chained(s) && t < TERM_SIZE && u < TERM_SIZE && k < |s.chains[t]| && j < |s.chains[u]|
    ensures s.usage[s.chains[t][k]]
    ensures s.chains[t][k] == s.chains[u][j] ==> t == u && k == j
  {
    assert s.chains[t][k] in s.chains[t] && s.chains[u][j] in s.chains[u];
    assert OnSomeChain(s, s.chains[t][k]);
  }

  lemma ChainIsDistinct(s: Sys, t: nat)
    requires Chained(s) && t < TERM_SIZE
    ensures NoDup(s.chains[t])
  {
  }

  lemma TailIsAlone(s: Sys, t: nat)
    requires Chained(s) && t < TERM_SIZE
    ensures Occupied(s, t) ==> s.usage[Tail(s, t)]
    ensures forall u, k :: 0 <= u < TERM_SIZE && 0 <= k < |s.chains[u]| ==> s.usage[s.chains[u][k]]
    ensures forall u, k :: 0 <= u < TERM_SIZE && 0 <= k < |s.chains[u]| && !(u == t && k == |s.chains[t]| - 1) ==>
      Occupied(s, t) ==> s.chains[u][k] != Tail(s, t)
  {
    forall u, k | 0 <= u < TERM_SIZE && 0 <= k < |s.chains[u]|
      ensures s.usage[s.chains[u][k]]
      ensures Occupied(s, t) && s.chains[u][k] == Tail(s, t) ==> u == t && k == |s.chains[t]| - 1
    {
      OnePlace(s, u, k, u, k);
      if Occupied(s, t) {
        OnePlace(s, u, k, t, |s.chains[t]| - 1);
      }
    }
    if Occupied(s, t) {
      OnePlace(s, t, |s.chains[t]| - 1, t, |s.chains[t]| - 1);
    }
  }

  lemma PushKeepsForest(s: Sys, t: nat, n: nat)
    requires Chained(s) && t < TERM_SIZE && n < MAX_PROCESSES && !s.usage[n]
    ensures Chained(Push(s, t, n))
    ensures Forest(s) && s.pcbs[n].pid == n ==> Forest(Push(s, t, n))
  {
    var r := Push(s, t, n);
    assert !OnSomeChain(s, n);
    forall i | 0 <= i < MAX_PROCESSES ensures r.usage[i] <==> OnSomeChain(r, i) {
      assert OnSomeChain(r, i) <==> OnSomeChain(s, i) || i == n;
    }
  }

  lemma GiveBackKeepsForest(s: Sys)
    requires Forest(s) && Occupied(s, s.active)
    ensures Forest(GiveBack(s)) && !GiveBack(s).usage[Tail(s, s.active)]
  {
    var r, c := GiveBack(s), s.chains[s.active];
    assert c == c[..|c| - 1] + [Last(c)];
    assert forall i :: i in c <==> i in c[..|c| - 1] || i == Last(c);
    assert Last(c) !in c[..|c| - 1];
    assert OnSomeChain(s, Last(c));
    forall i | 0 <= i < MAX_PROCESSES ensures r.usage[i] <==> OnSomeChain(r, i) {
      assert s.usage[i] <==> OnSomeChain(s, i);
    }
  }

  lemma ExecuteKeepsForest(s: Sys, file: Program, entry: Context)
    requires Forest(s) && file != Corrupt
    ensures Forest(Execute(s, file, entry).sys)
  {
    match FirstFree(s.usage, 0)
    case None =>
    case Some(n) =>
      var pcb := PcbData(n, INITIAL_FDS, entry, KernelStack(n), Frame(n), entry);
      PushKeepsForest(SetPcb(s, n, pcb), s.active, n);
  }

  /** The one way to lose the invariant: an image that cannot be loaded, met after a slot was taken for it. */
  ghost predicate LeaksSlot(s: Sys, step: Step)
    requires Shape(s)
  {
    step.Exec? && step.file == Corrupt && FirstFree(s.usage, 0).Some?
  }

  /** Chains depend on the table and the chains alone, the forest on the pids as well. */
  lemma ChainedAlike(s: Sys, r: Sys)
    requires Chained(s) && Shape(r) && r.usage == s.usage && r.chains == s.chains
    ensures Chained(r)
  {
    assert forall i {:trigger OnSomeChain(r, i)} :: OnSomeChain(r, i) <==> OnSomeChain(s, i);
  }

  lemma ForestAlike(s: Sys, r: Sys)
    requires Forest(s) && Shape(r) && r.usage == s.usage && r.chains == s.chains
    requires forall i :: 0 <= i < MAX_PROCESSES ==> r.pcbs[i].pid == s.pcbs[i].pid
    ensures Forest(r)
  {
    ChainedAlike(s, r);
    hide Chained;
  }

  lemma TickKeepsForest(s: Sys, saved: Context, entry: Context)
    requires Forest(s)
    ensures Forest(Tick(s, saved, entry).sys)
  {
    if Occupied(s, s.active) {
      var next := (s.active + 1) % TERM_SIZE;
      var out := SaveSwitched(s, s.active, saved).(active := next);
      ForestAlike(s, out);
      hide SaveSwitched, Execute, FirstFree, NoDup, OnSomeChain;
      if Occupied(s, next) {
        ForestAlike(out, Tick(s, saved, entry).sys);
      } else {
        ExecuteKeepsForest(out, Runnable, entry);
      }
    }
  }

  /** The forest survives every step that loads what it executes, however full the table. */
  lemma StepKeepsForest(s: Sys, step: Step)
    requires Forest(s) && Enabled(s, step) && !LeaksSlot(s, step)
    ensures Forest(Next(s, step))
  {
    hide NoDup, OnSomeChain, Tick, GiveBack;
    match step
    case Exec(file, entry) => if file != Corrupt { ExecuteKeepsForest(s, file, entry); }
    case Exit(entry) => HaltKeepsForest(s, entry);
    case Timer(saved, entry) => TickKeepsForest(s, saved, entry);
    case Files(fds) => ForestAlike(s, EditFds(s, fds));
  }

  lemma HaltKeepsForest(s: Sys, entry: Context)
    requires Forest(s) && Occupied(s, s.active)
    ensures Forest(Halt(s, entry).sys)
  {
    hide NoDup, OnSomeChain, Execute;
    GiveBackKeepsForest(s);
    if |s.chains[s.active]| == 1 {
      ExecuteKeepsForest(GiveBack(s), Runnable, entry);
    } else {
      ForestAlike(GiveBack(s), Halt(s, entry).sys);
    }
  }

  /** A whole run without such a step. */
  ghost predicate NoLeak(s: Sys, steps: seq<Step>)
    requires Shape(s) && Possible(s, steps)
    decreases |steps|
  {
    steps == [] || (!LeaksSlot(s, steps[0]) && NoLeak(Next(s, steps[0]), steps[1..]))
  }

  lemma {:induction false} RunKeepsForest(s: Sys, steps: seq<Step>)
    requires Forest(s) && Possible(s, steps) && NoLeak(s, steps)
    ensures Forest(Run(s, steps))
    decreases |steps|
  {
    if steps != [] {
      StepKeepsForest(s, steps[0]);
      RunKeepsForest(Next(s, steps[0]), steps[1..]);
    }
  }

  // ---------- address spaces ----------

  lemma ExecuteKeepsInv(s: Sys, file: Program, entry: Context)
    requires Forest(s) && Matched(s) && file != Corrupt
    requires file != Runnable || FirstFree(s.usage, 0).None? ==> Agreement(s)
    ensures Inv(Execute(s, file, entry).sys)
  {
    ExecuteKeepsForest(s, file, entry);
    var r := Execute(s, file, entry);
    if r.outcome.Started? {
      assert Tail(r.sys, s.active) == r.outcome.slot;
    }
  }

  lemma HaltKeepsInv(s: Sys, entry: Context)
    requires Inv(s) && Occupied(s, s.active)
    ensures Inv(Halt(s, entry).sys)
  {
    GiveBackKeepsForest(s);
    var freed := GiveBack(s);
    if |s.chains[s.active]| == 1 {
      ExecuteKeepsInv(freed, Runnable, entry);
    } else {
      var parent := Tail(freed, s.active);
      assert parent in freed.chains[s.active];
      assert OnSomeChain(freed, parent);
    }
  }

  lemma TickKeepsInv(s: Sys, saved: Context, entry: Context)
    requires Inv(s)
    ensures Inv(Tick(s, saved, entry).sys)
  {
    hide NoDup, OnSomeChain, Matched, FirstFree, Execute, PageEntry, Frame, KernelStack;
    TickKeepsForest(s, saved, entry);
    if Occupied(s, s.active) {
      if Occupied(s, (s.active + 1) % TERM_SIZE) {
        TickLoadsAgree(s, saved, entry);
      } else {
        SavedKeepsMatched(s, saved);
        hide SaveSwitched;
        ExecuteKeepsInv(SaveSwitched(s, s.active, saved).(active := (s.active + 1) % TERM_SIZE), Runnable, entry);
      }
    }
  }

  lemma SavedKeepsMatched(s: Sys, saved: Context)
    requires Inv(s) && Occupied(s, s.active) && !Occupied(s, (s.active + 1) % TERM_SIZE)
    ensures var out := SaveSwitched(s, s.active, saved).(active := (s.active + 1) % TERM_SIZE);
      Forest(out) && Matched(out) && Agreement(out)
  {
    ForestAlike(s, SaveSwitched(s, s.active, saved).(active := (s.active + 1) % TERM_SIZE));
  }

  lemma TickLoadsAgree(s: Sys, saved: Context, entry: Context)
    requires Inv(s) && Occupied(s, s.active) && Occupied(s, (s.active + 1) % TERM_SIZE)
    ensures Matched(Tick(s, saved, entry).sys) && Agreement(Tick(s, saved, entry).sys)
  {
    hide NoDup;
    assert OnSomeChain(s, Tail(s, (s.active + 1) % TERM_SIZE));
    hide OnSomeChain, Execute;
  }

  /** Every step that does not leak a slot keeps the address space in agreement with the running process... */
  lemma StepKeepsInv(s: Sys, step: Step)
    requires Inv(s) && Enabled(s, step) && !LeaksSlot(s, step)
    ensures Inv(Next(s, step))
  {
    match step
    case Exec(file, entry) =>
      if file != Corrupt {
        ExecuteKeepsInv(s, file, entry);
      }
    case Exit(entry) => HaltKeepsInv(s, entry);
    case Timer(saved, entry) => TickKeepsInv(s, saved, entry);
    case Files(fds) => StepKeepsForest(s, step);
  }

  /** ...and a step that leaks one always breaks it when a process is running. */
  lemma LeakBreaksAgreement(s: Sys, step: Step)
    requires Inv(s) && Enabled(s, step) && Occupied(s, s.active)
    ensures Agreement(Next(s, step)) <==> !LeaksSlot(s, step)
  {
    if LeaksSlot(s, step) {
      var n := FirstFree(s.usage, 0).value;
      assert Tail(Next(s, step), s.active) == n;
      assert OnSomeChain(s, Tail(s, s.active));
      assert n != Tail(s, s.active);
    } else {
      StepKeepsInv(s, step);
    }
  }

  lemma {:induction false} RunKeepsInv(s: Sys, steps: seq<Step>)
    requires Inv(s) && Possible(s, steps) && NoLeak(s, steps)
    ensures Inv(Run(s, steps))
    decreases |steps|
  {
    if steps != [] {
      StepKeepsInv(s, steps[0]);
      RunKeepsInv(Next(s, steps[0]), steps[1..]);
    }
  }

  /** From boot: the whole invariant, and no two live processes share a frame or a kernel stack. */
  lemma RunsFromBootAreSafe(s: Sys, steps: seq<Step>, a: nat, b: nat)
    requires Booted(s) && Possible(s, steps) && NoLeak(s, steps)
    requires a < MAX_PROCESSES && b < MAX_PROCESSES && a != b
    requires Run(s, steps).usage[a] && Run(s, steps).usage[b]
    ensures Inv(Run(s, steps))
    ensures var p, q := Run(s, steps).pcbs[a], Run(s, steps).pcbs[b];
      && (p.page + USER_PROG_SIZE <= q.page || q.page + USER_PROG_SIZE <= p.page)
      && (p.kStack + PCB_OFFSET <= q.kStack || q.kStack + PCB_OFFSET <= p.kStack)
  {
    BootIsSound(s);
    RunKeepsInv(s, steps);
    if a < b { SlotsNeverOverlap(a, b); } else { SlotsNeverOverlap(b, a); }
  }

  // ---------- allocation ----------

  ghost function Elements(c: seq<nat>): set<nat> {
    set i | i in c
  }

  lemma {:induction false} DistinctElements(c: seq<nat>)
    requires NoDup(c)
    ensures |Elements(c)| == |c|
  {
    if c != [] {
      var front := c[..|c| - 1];
      DistinctElements(front);
      assert c == front + [Last(c)];
      assert Elements(c) == Elements(front) + {Last(c)};
    }
  }

  ghost function ProcessCount(s: Sys): nat
    requires Shape(s)
  {
    |s.chains[0]| + |s.chains[1]| + |s.chains[2]|
  }

  ghost function Used(s: Sys): set<nat>
    requires Shape(s)
  {
    Elements(s.chains[0]) + Elements(s.chains[1]) + Elements(s.chains[2])
  }

  lemma UsedCount(s: Sys)
    requires Forest(s)
    ensures |Used(s)| == ProcessCount(s)
  {
    var e0, e1, e2 := Elements(s.chains[0]), Elements(s.chains[1]), Elements(s.chains[2]);
    DistinctElements(s.chains[0]);
    DistinctElements(s.chains[1]);
    DistinctElements(s.chains[2]);
    assert e0 !! e1;
    assert (e0 + e1) !! e2;
  }

  lemma UsedSlots(s: Sys, i: nat)
    requires Forest(s)
    ensures i in Used(s) <==> i < MAX_PROCESSES && s.usage[i]
  {
    assert i in Used(s) <==> OnSomeChain(s, i);
  }

  ghost function Slots(n: nat): (r: set<nat>)
    ensures |r| == n && forall i :: i in r <==> 0 <= i < n
  {
    if n == 0 then {} else Slots(n - 1) + {n - 1}
  }

  lemma SubsetCount(used: set<nat>, all: set<nat>)
    requires used <= all
    ensures |used| <= |all|
    ensures |used| == |all| <==> used == all
  {
    assert used + (all - used) == all;
    assert |used| + |all - used| == |all|;
  }

  lemma UsedAgainstSlots(s: Sys)
    requires Forest(s)
    ensures Used(s) <= Slots(MAX_PROCESSES)
    ensures FirstFree(s.usage, 0).None? <==> Used(s) == Slots(MAX_PROCESSES)
  {
    forall i: nat ensures i in Used(s) <==> i < MAX_PROCESSES && s.usage[i] {
      UsedSlots(s, i);
    }
    if FirstFree(s.usage, 0).Some? {
      assert FirstFree(s.usage, 0).value in Slots(MAX_PROCESSES);
    }
  }

  /** Allocation fails only when the chains together hold all six slots. */
  lemma AllocationFailsOnlyWhenFull(s: Sys)
    requires Forest(s)
    ensures ProcessCount(s) <= MAX_PROCESSES
    ensures FirstFree(s.usage, 0).None? <==> ProcessCount(s) == MAX_PROCESSES
  {
    UsedCount(s);
    UsedAgainstSlots(s);
    SubsetCount(Used(s), Slots(MAX_PROCESSES));
  }
}
