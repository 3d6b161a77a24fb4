/**
 The process table as a value: which slots are taken, what each control block holds, and the
 chain of slots (base shell first) that hangs off each terminal. The functions below say what one
 system call or one timer tick does to it; class Kernel is proved against them.
 */
module ProcessSpec {
  import opened Basics
  import opened Layout
  import opened Descriptors

  /** A saved ESP/EBP pair. */
  datatype Context = Context(esp: int, ebp: int)

  datatype PcbData = PcbData(pid: nat, fds: seq<Fd>, entry: Context, kStack: int, page: int, switched: Context)

  datatype Sys = Sys(
    usage: seq<bool>,
    pcbs: seq<PcbData>,
    chains: seq<seq<nat>>,
    active: nat,
    pde: int,
    esp0: int)

  /** What execute finds when it reads the named file. */
  datatype Program = Missing | Corrupt | Runnable

  datatype ExecOutcome = Refused | TableFull | LoadFailed(slot: nat) | Started(slot: nat)

  ghost predicate Shape(s: Sys) {
    && |s.usage| == |s.pcbs| == MAX_PROCESSES
    && |s.chains| == TERM_SIZE
    && s.active < TERM_SIZE
    && (forall t, k :: 0 <= t < TERM_SIZE && 0 <= k < |s.chains[t]| ==> s.chains[t][k] < MAX_PROCESSES)
    && (forall i :: 0 <= i < MAX_PROCESSES ==> |s.pcbs[i].fds| == MAX_FILES)
  }

  ghost predicate Occupied(s: Sys, t: nat)
    requires Shape(s) && t < TERM_SIZE
  {
    s.chains[t] != []
  }

  ghost function Tail(s: Sys, t: nat): (n: nat)
    requires Shape(s) && t < TERM_SIZE && Occupied(s, t)
    ensures n < MAX_PROCESSES
  {
    Last(s.chains[t])
  }

  /** The lowest slot at or after i that is not in use. */
  function FirstFree(usage: seq<bool>, i: nat): (r: Option<nat>)
    requires i <= |usage|
    ensures r.Some? ==> i <= r.value < |usage| && !usage[r.value] && forall j :: i <= j < r.value ==> usage[j]
    ensures r.None? ==> forall j :: i <= j < |usage| ==> usage[j]
    decreases |usage| - i
  {
    if i == |usage| then None
    else if !usage[i] then Some(i)
    else FirstFree(usage, i + 1)
  }

  /** add_PCB: take a slot and hang it at the end of a terminal's chain. */
  ghost function Push(s: Sys, t: nat, n: nat): (r: Sys)
    requires Shape(s) && t < TERM_SIZE && n < MAX_PROCESSES
    ensures Shape(r)
  {
    s.(usage := s.usage[n := true], chains := s.chains[t := s.chains[t] + [n]])
  }

  ghost function SetPcb(s: Sys, n: nat, p: PcbData): (r: Sys)
    requires Shape(s) && n < MAX_PROCESSES && |p.fds| == MAX_FILES
    ensures Shape(r)
  {
    s.(pcbs := s.pcbs[n := p])
  }

  datatype ExecResult = ExecResult(sys: Sys, outcome: ExecOutcome)

  /** execute, called for the active task; entry is the ESP/EBP pair of the call itself. */
  ghost function Execute(s: Sys, file: Program, entry: Context): (r: ExecResult)
    requires Shape(s)
    ensures Shape(r.sys)
  {
    if file == Missing then ExecResult(s, Refused)
    else
      match FirstFree(s.usage, 0)
      case None => ExecResult(s, TableFull)
      case Some(n) =>
        var mapped := Push(s, s.active, n).(pde := PageEntry(Frame(n)));
        if file == Corrupt then ExecResult(mapped, LoadFailed(n))
        else
          var pcb := PcbData(n, INITIAL_FDS, entry, KernelStack(n), Frame(n), entry);
          ExecResult(SetPcb(mapped, n, pcb).(esp0 := KernelStack(n)), Started(n))
  }

  /** unset_process_usage: the table entry named by a control block's pid is cleared. A pid beyond the
      table changes no entry of it. */
  ghost function Unset(usage: seq<bool>, pid: nat): (r: seq<bool>)
    ensures |r| == |usage|
  {
    if pid < |usage| then usage[pid := false] else usage
  }

  datatype HaltOutcome = Respawned(exec: ExecOutcome) | Resumed(context: Context)

  datatype HaltResult = HaltResult(sys: Sys, outcome: HaltOutcome)

  /** The caller leaves its chain and gives back the slot its pid names, before anything else happens. */
  ghost function GiveBack(s: Sys): (r: Sys)
    requires Shape(s) && Occupied(s, s.active)
    ensures Shape(r)
  {
    var c := s.chains[s.active];
    s.(usage := Unset(s.usage, s.pcbs[Last(c)].pid), chains := s.chains[s.active := c[..|c| - 1]])
  }

  /** halt of the active task: a base shell is started afresh, any other process returns to its parent. */
  ghost function Halt(s: Sys, entry: Context): (r: HaltResult)
    requires Shape(s) && Occupied(s, s.active)
    ensures Shape(r.sys)
  {
    var self := Tail(s, s.active);
    var freed := GiveBack(s);
    if |s.chains[s.active]| == 1 then
      var e := Execute(freed, Runnable, entry);
      HaltResult(e.sys, Respawned(e.outcome))
    else
      var parent := s.pcbs[Tail(freed, s.active)];
      var closed := SetPcb(freed, self, s.pcbs[self].(fds := ReleasedAll(s.pcbs[self].fds)));
      HaltResult(closed.(pde := PageEntry(parent.page), esp0 := parent.kStack), Resumed(s.pcbs[self].entry))
  }

  datatype TickOutcome = Idle | Spawned(exec: ExecOutcome) | Loaded(context: Context)

  datatype TickResult = TickResult(sys: Sys, outcome: TickOutcome)

  ghost function SaveSwitched(s: Sys, t: nat, saved: Context): (r: Sys)
    requires Shape(s) && t < TERM_SIZE && Occupied(s, t)
    ensures Shape(r)
  {
    SetPcb(s, Tail(s, t), s.pcbs[Tail(s, t)].(switched := saved))
  }

  /** task_switch: saved is the interrupted ESP/EBP pair, entry that of the execute call it may make. */
  ghost function Tick(s: Sys, saved: Context, entry: Context): (r: TickResult)
    requires Shape(s)
    ensures Shape(r.sys)
  {
    var next := (s.active + 1) % TERM_SIZE;
    if !Occupied(s, s.active) then TickResult(s, Idle)
    else
      var out := SaveSwitched(s, s.active, saved).(active := next);
      if !Occupied(s, next) then
        var e := Execute(out, Runnable, entry);
        TickResult(e.sys, Spawned(e.outcome))
      else
        var pcb := s.pcbs[Tail(s, next)];
        TickResult(out.(esp0 := pcb.kStack, pde := PageEntry(pcb.page)), Loaded(pcb.switched))
  }

  /** A call that only edits the caller's descriptor array: open, close and the position kept by read. */
  ghost function EditFds(s: Sys, fds: seq<Fd>): (r: Sys)
    requires Shape(s) && Occupied(s, s.active) && |fds| == MAX_FILES
    ensures Shape(r)
  {
    SetPcb(s, Tail(s, s.active), s.pcbs[Tail(s, s.active)].(fds := fds))
  }

  /** multi_term_init over PCB memory that holds arbitrary data. */
  ghost predicate Booted(s: Sys) {
    && Shape(s)
    && s.usage == [false, false, false, false, false, false]
    && s.chains == [[], [], []]
    && s.active == 0
  }

  ghost function BootSys(memory: seq<PcbData>, pde: int, esp0: int): (s: Sys)
    requires |memory| == MAX_PROCESSES && forall i :: 0 <= i < MAX_PROCESSES ==> |memory[i].fds| == MAX_FILES
    ensures Booted(s) && s.pcbs == memory && s.pde == pde && s.esp0 == esp0
    ensures forall i :: 0 <= i < MAX_PROCESSES ==> !s.usage[i]
    ensures forall t :: 0 <= t < TERM_SIZE ==> s.chains[t] == []
  {
    Sys([false, false, false, false, false, false], memory, [[], [], []], 0, pde, esp0)
  }

  // ---------- runs ----------

  datatype Step =
    | Exec(file: Program, entry: Context)
    | Exit(entry: Context)
    | Timer(saved: Context, entry: Context)
    | Files(fds: seq<Fd>)

  /** A halt or a descriptor call needs a running process to make it. */
  ghost predicate Enabled(s: Sys, step: Step)
    requires Shape(s)
  {
    match step
    case Exec(_, _) => true
    case Exit(_) => Occupied(s, s.active)
    case Timer(_, _) => true
    case Files(fds) => Occupied(s, s.active) && |fds| == MAX_FILES
  }

  ghost function Next(s: Sys, step: Step): (r: Sys)
    requires Shape(s) && Enabled(s, step)
    ensures Shape(r)
  {
    match step
    case Exec(file, entry) => Execute(s, file, entry).sys
    case Exit(entry) => Halt(s, entry).sys
    case Timer(saved, entry) => Tick(s, saved, entry).sys
    case Files(fds) => EditFds(s, fds)
  }

  ghost predicate Possible(s: Sys, steps: seq<Step>)
    requires Shape(s)
    decreases |steps|
  {
    steps == [] || (Enabled(s, steps[0]) && Possible(Next(s, steps[0]), steps[1..]))
  }

  ghost function Run(s: Sys, steps: seq<Step>): (r: Sys)
    requires Shape(s) && Possible(s, steps)
    ensures Shape(r)
    decreases |steps|
  {
    if steps == [] then s else Run(Next(s, steps[0]), steps[1..])
  }
}
