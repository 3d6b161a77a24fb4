/** What execute leaves behind in each of its outcomes, and what a started process starts with. */
module ProcessStart {
  import opened Basics
  import opened Layout
  import opened Descriptors
  import opened ProcessSpec
  import opened ProcessForest

  /** In slot n runs a process just started by a call with this context, at the end of the active chain: it has
      stdin and stdout and no other file, and the CPU works on its page and its stack. */
  ghost predicate FreshProcess(s: Sys, n: nat, entry: Context)
    requires Shape(s) && n < MAX_PROCESSES
  {
    && s.usage[n] && Occupied(s, s.active) && Tail(s, s.active) == n
    && s.pcbs[n].pid == n && s.pcbs[n].entry == entry && s.pcbs[n].switched == entry
    && s.pcbs[n].page == 0x80_0000 + n * 0x40_0000 && s.pcbs[n].kStack == 0x80_0000 - n * 0x2000 - 4
    && s.pde == s.pcbs[n].page + 0x87 && s.esp0 == s.pcbs[n].kStack
    && StdioOnly(s.pcbs[n].fds)
  }

  /** The four outcomes of execute, and all they change: nothing without a program or a slot; a slot, a place on the
      chain and the page entry when the image cannot be loaded; and a fresh process in the lowest free slot,
      whatever its block held before. */
  lemma ExecuteOutcomes(s: Sys, file: Program, entry: Context)
    requires Shape(s)
    ensures var r, o := Execute(s, file, entry).sys, Execute(s, file, entry).outcome;
      match o {
        case Refused => file == Missing && r == s
        case TableFull => file != Missing && r == s && forall i :: 0 <= i < MAX_PROCESSES ==> s.usage[i]
        case LoadFailed(n) =>
          && file == Corrupt && r.pcbs == s.pcbs && r.esp0 == s.esp0 && Placed(s, r, n)
        case Started(n) =>
          && file == Runnable && Placed(s, r, n) && FreshProcess(r, n, entry)
          && forall i :: 0 <= i < MAX_PROCESSES && i != n ==> r.pcbs[i] == s.pcbs[i]
      }
  {
  }

  /** Slot n, the lowest free one, was put at the end of the active chain. */
  ghost predicate Placed(s: Sys, r: Sys, n: nat)
    requires Shape(s) && Shape(r)
  {
    && n < MAX_PROCESSES && !s.usage[n] && (forall i :: 0 <= i < n ==> s.usage[i])
    && (forall i :: 0 <= i < MAX_PROCESSES ==> r.usage[i] == (s.usage[i] || i == n))
    && r.active == s.active && r.chains[r.active] == s.chains[s.active] + [n]
    && forall t :: 0 <= t < TERM_SIZE && t != s.active ==> r.chains[t] == s.chains[t]
  }

  /** A base shell that halts is replaced by a fresh one, alone on its terminal, in its own slot or a lower one. */
  lemma HaltStartsShell(s: Sys, entry: Context)
    requires Forest(s) && |s.chains[s.active]| == 1
    ensures var r := Halt(s, entry);
      && r.outcome.Respawned? && r.outcome.exec.Started?
      && r.outcome.exec.slot <= Tail(s, s.active) && FreshProcess(r.sys, r.outcome.exec.slot, entry)
      && r.sys.active == s.active && r.sys.chains[s.active] == [r.outcome.exec.slot]
  {
    GiveBackKeepsForest(s);
    ExecuteOutcomes(GiveBack(s), Runnable, entry);
    assert s.chains[s.active] == [Tail(s, s.active)];
    hide Forest, FreshProcess;
  }

  /** A tick into an empty terminal starts a fresh shell there, when a slot is free. */
  lemma TickStartsShell(s: Sys, saved: Context, entry: Context)
    requires Shape(s) && Occupied(s, s.active) && !Occupied(s, (s.active + 1) % TERM_SIZE)
    requires FirstFree(s.usage, 0).Some?
    ensures var r := Tick(s, saved, entry);
      && r.outcome.Spawned? && r.outcome.exec.Started? && r.sys.active == (s.active + 1) % TERM_SIZE
      && FreshProcess(r.sys, r.outcome.exec.slot, entry) && r.sys.chains[r.sys.active] == [r.outcome.exec.slot]
  {
    ExecuteOutcomes(SaveSwitched(s, s.active, saved).(active := (s.active + 1) % TERM_SIZE), Runnable, entry);
    hide FreshProcess;
  }

  /** Every process in use has stdin and stdout only. */
  ghost predicate AllStdio(s: Sys)
    requires Shape(s)
  {
    forall i :: 0 <= i < MAX_PROCESSES && s.usage[i] ==> StdioOnly(s.pcbs[i].fds)
  }

  lemma StepKeepsStdio(s: Sys, step: Step)
    requires Forest(s) && AllStdio(s) && Enabled(s, step) && !LeaksSlot(s, step) && !step.Files?
    ensures AllStdio(Next(s, step))
  {
    hide StdioOnly, OnSomeChain, NoDup, Execute;
    match step
    case Exec(file, entry) => ExecuteKeepsStdio(s, file, entry);
    case Exit(entry) =>
      TailIsAlone(s, s.active);
      ExecuteKeepsStdio(GiveBack(s), Runnable, entry);
    case Timer(saved, entry) =>
      if Occupied(s, s.active) {
        ExecuteKeepsStdio(SaveSwitched(s, s.active, saved).(active := (s.active + 1) % TERM_SIZE), Runnable, entry);
      }
    case Files(_) =>
  }

  lemma ExecuteKeepsStdio(s: Sys, file: Program, entry: Context)
    requires Shape(s) && (file == Corrupt ==> FirstFree(s.usage, 0).None?)
    ensures AllStdio(s) ==> AllStdio(Execute(s, file, entry).sys)
  {
    ExecuteOutcomes(s, file, entry);
    hide StdioOnly, Execute;
  }

  ghost predicate NoFiles(steps: seq<Step>) {
    forall i :: 0 <= i < |steps| ==> !steps[i].Files?
  }

  /** Descriptors change hands in no other way: from boot, until a process opens or closes a file, every process
      has stdin and stdout only, whatever starts, halts and is scheduled. */
  lemma {:induction false} RunKeepsStdio(s: Sys, steps: seq<Step>)
    requires Forest(s) && AllStdio(s) && Possible(s, steps) && NoLeak(s, steps) && NoFiles(steps)
    ensures AllStdio(Run(s, steps))
    decreases |steps|
  {
    hide Next, OnSomeChain, NoDup, AllStdio, LeaksSlot;
    if steps != [] {
      StepKeepsForest(s, steps[0]);
      StepKeepsStdio(s, steps[0]);
      RunKeepsStdio(Next(s, steps[0]), steps[1..]);
    }
  }

  lemma BootHasNoProcess(s: Sys)
    requires Booted(s)
    ensures Forest(s) && AllStdio(s)
  {
    BootIsSound(s);
  }

  /** A process that halts to its parent leaves no descriptor open, and the entries that were not in use alone. */
  lemma HaltClosesFiles(s: Sys, entry: Context)
    requires Shape(s) && |s.chains[s.active]| > 1
    ensures var self := Tail(s, s.active);
      var was, now := s.pcbs[self].fds, Halt(s, entry).sys.pcbs[self].fds;
      forall i :: 0 <= i < MAX_FILES ==>
        && !now[i].inUse
        && if was[i].inUse then now[i].ops == NoOps && now[i].inode == now[i].position == 0 else now[i] == was[i]
  {
  }
}
