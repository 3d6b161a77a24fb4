/**
 The kernel's own form of the process table: control blocks at fixed places linked by childPcb, a
 usage table, a chain head per terminal, and the two registers that select an address space.
 Every method is proved to do to the value in ProcessSpec what that module says.
 */
module Kernel {
  import opened Basics
  import opened Layout
  import opened Descriptors
  import opened ProcessSpec
  import opened ProcessForest
  import opened ProcessStart

  class Pcb {
    var pid: nat
    const fdArr: array<Fd>
    var entry: Context     // self_esp, self_ebp
    var kStack: int
    var page: int
    var switched: Context  // esp_switch, ebp_switch
    var childPcb: Pcb?

    /** PCB memory at boot: any contents, but a null child. */
    constructor (pid: nat, entry: Context, kStack: int, page: int)
      ensures fresh(fdArr) && fdArr.Length == MAX_FILES && childPcb == null
    {
      this.pid, this.entry, this.kStack, this.page, this.switched := pid, entry, kStack, page, entry;
      this.fdArr := new Fd[MAX_FILES](_ => CLOSED);
      this.childPcb := null;
    }

    ghost function Data(): (d: PcbData)
      reads `pid, `entry, `kStack, `page, `switched, fdArr
      ensures |d.fds| == fdArr.Length
    {
      PcbData(pid, fdArr[..], entry, kStack, page, switched)
    }

    lemma DataFields()
      ensures Data() == PcbData(pid, fdArr[..], entry, kStack, page, switched)
    {
    }
  }

  /** Clear all eight descriptors, then open stdin and stdout. */
  method InitFds(fds: array<Fd>)
    requires fds.Length == MAX_FILES
    modifies fds
    ensures fds[..] == INITIAL_FDS && StdioOnly(fds[..])
  {
    var i := 0;
    while i < MAX_FILES
      invariant 0 <= i <= MAX_FILES
      invariant forall j :: 0 <= j < i ==> fds[j] == CLOSED
    {
      fds[i] := CLOSED;
      i := i + 1;
    }
    fds[0] := Fd(StdinOps, 0, 0, true);
    fds[1] := Fd(StdoutOps, 0, 0, true);
  }

  /** halt's loop over the descriptors: those in use are cleared. */
  method ReleaseAll(fds: array<Fd>)
    modifies fds
    ensures fds[..] == ReleasedAll(old(fds[..]))
    ensures forall i :: 0 <= i < fds.Length ==>
      !fds[i].inUse && if old(fds[i].inUse) then fds[i].ops == NoOps else fds[i] == old(fds[i])
  {
    var i := 0;
    while i < fds.Length
      invariant 0 <= i <= fds.Length
      invariant forall j :: 0 <= j < i ==> fds[j] == Released(old(fds[j]))
      invariant forall j :: i <= j < fds.Length ==> fds[j] == old(fds[j])
    {
      if fds[i].inUse {
        fds[i] := CLOSED;
      }
      i := i + 1;
    }
  }

  /** The walk in halt from the head of a chain to the block whose child is its last one. */
  method FindParent(ghost blocks: seq<Pcb>, head: Pcb, self: Pcb) returns (parent: Pcb)
    requires NoDup(blocks) && |blocks| > 1 && head == blocks[0] && self == Last(blocks)
    requires forall k :: 0 < k < |blocks| ==> blocks[k - 1].childPcb == blocks[k]
    ensures parent == blocks[|blocks| - 2]
  {
    parent := head;
    ghost var k := 0;
    while parent.childPcb != self
      invariant 0 <= k < |blocks| - 1 && parent == blocks[k]
      decreases |blocks| - k
    {
      assert parent.childPcb == blocks[k + 1];
      parent, k := parent.childPcb, k + 1;
    }
    assert parent.childPcb == blocks[k + 1];
  }

  /** task_switch case by case, in the order of its writes. */
  lemma TickCases(s: Sys, saved: Context, entry: Context)
    requires Shape(s)
    ensures !Occupied(s, s.active) ==> Tick(s, saved, entry) == TickResult(s, Idle)
    ensures Occupied(s, s.active) ==>
      var n, next := Tail(s, s.active), (s.active + 1) % TERM_SIZE;
      var out := s.(active := next);
      var kept := s.pcbs[n].(switched := saved);
      if !Occupied(s, next) then
        var e := Execute(SetPcb(out, n, kept), Runnable, entry);
        Tick(s, saved, entry) == TickResult(e.sys, Spawned(e.outcome))
      else
        var pcb := s.pcbs[Tail(s, next)];
        Tick(s, saved, entry)
        == TickResult(SetPcb(out.(esp0 := pcb.kStack, pde := PageEntry(pcb.page)), n, kept), Loaded(pcb.switched))
  {
    hide Execute, FirstFree;
  }

  class ProcessTable {
    const pcbs: seq<Pcb>
    const usage: array<bool>
    const heads: array<Pcb?>
    var activeTask: nat
    var pde: int
    var esp0: int
    ghost var sys: Sys

    /** Six distinct control blocks and the two tables. */
    ghost predicate Separate() {
      && |pcbs| == MAX_PROCESSES && usage.Length == MAX_PROCESSES && heads.Length == TERM_SIZE
      && (forall i, j :: 0 <= i < j < MAX_PROCESSES ==> pcbs[i] != pcbs[j])
    }

    /** Each block has a descriptor array of its own. */
    ghost predicate OwnArrays()
      requires |pcbs| == MAX_PROCESSES
    {
      && (forall i :: 0 <= i < MAX_PROCESSES ==> pcbs[i].fdArr.Length == MAX_FILES)
      && (forall i, j :: 0 <= i < j < MAX_PROCESSES ==> pcbs[i].fdArr != pcbs[j].fdArr)
    }

    /** The block that follows position k - 1 of a chain; null past its end. */
    ghost function Block(chain: seq<nat>, k: nat): Pcb?
      requires Separate() && k <= |chain| && forall j :: 0 <= j < |chain| ==> chain[j] < MAX_PROCESSES
    {
      if k == |chain| then null else pcbs[chain[k]]
    }

    /** The block at position k of a chain links to the one after it. */
    ghost predicate LinkAt(chain: seq<nat>, k: nat)
      requires Separate() && k < |chain| && forall j :: 0 <= j < |chain| ==> chain[j] < MAX_PROCESSES
      reads Block(chain, k)`childPcb
    {
      pcbs[chain[k]].childPcb == Block(chain, k + 1)
    }

    lemma LinkMeans(chain: seq<nat>, k: nat)
      requires Separate() && k < |chain| && forall j :: 0 <= j < |chain| ==> chain[j] < MAX_PROCESSES
      ensures LinkAt(chain, k) <==> pcbs[chain[k]].childPcb == Block(chain, k + 1)
    {
    }

    /** What a longer chain asks of the links it already had. */
    lemma LinkInLonger(chain: seq<nat>, n: nat, k: nat)
      requires Separate() && n < MAX_PROCESSES && forall j :: 0 <= j < |chain| ==> chain[j] < MAX_PROCESSES
      requires k <= |chain|
      ensures LinkAt(chain + [n], k) <==>
        if k == |chain| then pcbs[n].childPcb == null
        else if k == |chain| - 1 then pcbs[chain[k]].childPcb == pcbs[n]
        else LinkAt(chain, k)
    {
      var longer := chain + [n];
      assert longer[|chain|] == n;
    }

    /** The links spell out the chains, and every free block has a null child. */
    ghost predicate Linked()
      reads `sys, usage, heads, pcbs`childPcb
      requires Separate() && Shape(sys)
    {
      && (forall t :: 0 <= t < TERM_SIZE ==> heads[t] == Block(sys.chains[t], 0))
      && (forall t, k :: 0 <= t < TERM_SIZE && 0 <= k < |sys.chains[t]| ==> LinkAt(sys.chains[t], k))
      && (forall i :: 0 <= i < MAX_PROCESSES && !usage[i] ==> pcbs[i].childPcb == null)
    }

    ghost predicate Valid()
      reads this, usage, heads, pcbs, set p: Pcb | p in pcbs :: p.fdArr
    {
      && Separate() && OwnArrays() && Shape(sys) && Chained(sys)
      && (forall i :: 0 <= i < MAX_PROCESSES ==> sys.usage[i] == usage[i])
      && sys.active == activeTask && sys.pde == pde && sys.esp0 == esp0
      && (forall i :: 0 <= i < MAX_PROCESSES ==> sys.pcbs[i] == pcbs[i].Data())
      && Linked()
    }

    /** multi_term_init over six blocks of PCB memory; data is what that memory happens to hold. */
    constructor (blocks: seq<Pcb>, ghost data: seq<PcbData>, pde: int, esp0: int)
      requires |blocks| == |data| == MAX_PROCESSES
      requires forall i :: 0 <= i < MAX_PROCESSES ==>
        blocks[i].Data() == data[i] && blocks[i].fdArr.Length == MAX_FILES && blocks[i].childPcb == null
      requires forall i, j :: 0 <= i < j < MAX_PROCESSES ==>
        blocks[i] != blocks[j] && blocks[i].fdArr != blocks[j].fdArr
      ensures Valid() && pcbs == blocks && Booted(sys)
    {
      pcbs := blocks;
      usage := new bool[MAX_PROCESSES](_ => false);
      heads := new Pcb?[TERM_SIZE](_ => null);
      activeTask := 0;
      this.pde, this.esp0 := pde, esp0;
      sys := BootSys(data, pde, esp0);
      new;
      hide Chained, Pcb.Data, BootSys, Matched, Agreement;
      BootIsSound(sys);
      assert OwnArrays();
      assert forall i :: 0 <= i < MAX_PROCESSES ==> sys.pcbs[i] == pcbs[i].Data();
      assert Linked();
    }

    /** get_PCB_tail: the last block of a terminal's chain, or null. */
    method GetPcbTail(t: nat) returns (p: Pcb?)
      requires Valid()
      ensures p != null <==> t < TERM_SIZE && Occupied(sys, t)
      ensures p != null ==> p == pcbs[Tail(sys, t)]
    {
      if t >= TERM_SIZE {
        return null;
      }
      p := heads[t];
      if p == null {
        return;
      }
      ghost var k := 0;
      while p.childPcb != null
        invariant 0 <= k < |sys.chains[t]| && p == pcbs[sys.chains[t][k]]
        decreases |sys.chains[t]| - k
      {
        assert LinkAt(sys.chains[t], k);
        p, k := p.childPcb, k + 1;
      }
      assert LinkAt(sys.chains[t], k);
    }

    /** The scan of the usage table in add_PCB. */
    method FindFree() returns (n: int)
      requires Valid()
      ensures match FirstFree(sys.usage, 0)
        case None => n == -1
        case Some(slot) => n == slot
    {
      n := -1;
      var i := 0;
      while i < MAX_PROCESSES
        invariant 0 <= i <= MAX_PROCESSES && n == -1
        invariant FirstFree(sys.usage, 0) == FirstFree(sys.usage, i)
      {
        if !usage[i] {
          n := i;
          break;
        }
        i := i + 1;
      }
    }

    /** A position of chains to come: its block links on already, unless it is the one whose child is about to
        be written. */
    ghost predicate KeptAt(after: Sys, u: nat, k: nat, written: Pcb?, child: Pcb?)
      requires Separate() && Shape(after) && u < TERM_SIZE && k < |after.chains[u]|
      reads pcbs`childPcb
    {
      var b, next := pcbs[after.chains[u][k]], Block(after.chains[u], k + 1);
      if b == written then next == child else b.childPcb == next
    }

    /** Write one child link, and with it complete the links of the chains to come. */
    method SetChild(p: Pcb, child: Pcb?, ghost after: Sys)
      requires Separate() && Shape(after) && p in pcbs
      requires forall u, k :: 0 <= u < TERM_SIZE && 0 <= k < |after.chains[u]| ==> KeptAt(after, u, k, p, child)
      modifies p`childPcb
      ensures p.childPcb == child
      ensures forall u, k :: 0 <= u < TERM_SIZE && 0 <= k < |after.chains[u]| ==>
        pcbs[after.chains[u][k]].childPcb == Block(after.chains[u], k + 1)
    {
      p.childPcb := child;
      forall u, k | 0 <= u < TERM_SIZE && 0 <= k < |after.chains[u]|
        ensures pcbs[after.chains[u][k]].childPcb == Block(after.chains[u], k + 1)
      {
        assert old(KeptAt(after, u, k, p, child));
      }
    }

    /** The linking half of add_PCB: mark the slot used and hang its block at the end of the chain. */
    method Append(t: nat, n: nat)
      requires Valid() && t < TERM_SIZE && n < MAX_PROCESSES && !sys.usage[n]
      modifies `sys, usage, heads, pcbs
      ensures Valid() && sys == Push(old(sys), t, n)
    {
      hide Chained, Pcb.Data, OwnArrays, LinkAt, KeptAt, NoDup, Linked, Valid, Push;
      var tail := GetPcbTail(t);
      ghost var after := BeforeAppend(t, n, tail);
      usage[n] := true;
      if tail == null {
        heads[t] := pcbs[n];
        AllKept(after, pcbs[n]);
      } else {
        SetChild(tail, pcbs[n], after);
      }
      Adopt(after);
    }

    lemma AllKept(after: Sys, child: Pcb?)
      requires Separate() && Shape(after)
      requires forall u, k :: 0 <= u < TERM_SIZE && 0 <= k < |after.chains[u]| ==> KeptAt(after, u, k, null, child)
      ensures forall u, k :: 0 <= u < TERM_SIZE && 0 <= k < |after.chains[u]| ==>
        pcbs[after.chains[u][k]].childPcb == Block(after.chains[u], k + 1)
    {
      forall u, k | 0 <= u < TERM_SIZE && 0 <= k < |after.chains[u]|
        ensures pcbs[after.chains[u][k]].childPcb == Block(after.chains[u], k + 1)
      {
        assert KeptAt(after, u, k, null, child);
      }
    }

    /** The value appending will lead to, and how it differs from what is stored. */
    lemma BeforeAppend(t: nat, n: nat, tail: Pcb?) returns (after: Sys)
      requires Valid() && t < TERM_SIZE && n < MAX_PROCESSES && !sys.usage[n]
      requires tail == if Occupied(sys, t) then pcbs[Tail(sys, t)] else null
      ensures Separate() && OwnArrays() && Shape(sys) && Shape(after) && Chained(after) && after == Push(sys, t, n)
      ensures after.active == activeTask && after.pde == pde && after.esp0 == esp0 && (tail == null || tail in pcbs)
      ensures forall i :: 0 <= i < MAX_PROCESSES ==> after.usage[i] == (i == n || usage[i])
      ensures forall i :: 0 <= i < MAX_PROCESSES ==> after.pcbs[i] == pcbs[i].Data()
      ensures forall i :: 0 <= i < MAX_PROCESSES && !after.usage[i] ==> pcbs[i].childPcb == null && pcbs[i] != tail
      ensures forall u, k :: 0 <= u < TERM_SIZE && 0 <= k < |after.chains[u]| ==> KeptAt(after, u, k, tail, pcbs[n])
      ensures forall u :: 0 <= u < TERM_SIZE ==>
        Block(after.chains[u], 0) == if u == t && tail == null then pcbs[n] else heads[u]
    {
      hide Chained, Pcb.Data, LinkAt, KeptAt, NoDup, OwnArrays;
      after := Push(sys, t, n);
      PushKeepsForest(sys, t, n);
      TailIsAlone(sys, t);
      forall u, k | 0 <= u < TERM_SIZE && 0 <= k < |after.chains[u]| ensures KeptAt(after, u, k, tail, pcbs[n]) {
        LinksGrown(after, t, n, u, k);
      }
    }

    lemma LinksGrown(after: Sys, t: nat, n: nat, u: nat, k: nat)
      requires Valid() && t < TERM_SIZE && n < MAX_PROCESSES && !sys.usage[n] && after == Push(sys, t, n)
      requires u < TERM_SIZE && k < |after.chains[u]|
      ensures KeptAt(after, u, k, if Occupied(sys, t) then pcbs[Tail(sys, t)] else null, pcbs[n])
    {
      hide Chained, OwnArrays, NoDup, Pcb.Data, LinkAt;
      TailIsAlone(sys, t);
      if u != t || k < |sys.chains[t]| {
        LinkMeans(sys.chains[u], k);
      }
    }

    /** add_PCB: the lowest free slot goes to the end of the terminal's chain; -1 when there is none. */
    method AddPcb(t: nat) returns (n: int)
      requires Valid() && t < TERM_SIZE
      modifies `sys, usage, heads, pcbs
      ensures Valid()
      ensures match FirstFree(old(sys).usage, 0)
        case None => n == -1 && sys == old(sys)
        case Some(slot) => n == slot && sys == Push(old(sys), t, slot)
    {
      n := FindFree();
      if n != -1 {
        Append(t, n);
      }
    }

    ghost function Arrays(): set<array<Fd>> {
      set p: Pcb | p in pcbs :: p.fdArr
    }

    /** The part of execute that fills in the block of a slot: fields, descriptor array, contexts. */
    method InitPcb(n: nat, p: Pcb, entry: Context)
      requires Valid() && n < MAX_PROCESSES && p == pcbs[n]
      modifies `sys, p`pid, p`entry, p`kStack, p`page, p`switched, p.fdArr
      ensures Valid()
      ensures sys == SetPcb(old(sys), n, PcbData(n, INITIAL_FDS, entry, KernelStack(n), Frame(n), entry))
    {
      hide Chained, Pcb.Data, Linked, KernelStack, Frame;
      p.pid := n;
      p.kStack := KernelStack(n);
      p.page := Frame(n);
      InitFds(p.fdArr);
      p.entry, p.switched := entry, entry;
      p.DataFields();
      StoreBack(n);
    }

    /** Bring the ghost value up to date after block n was written. */
    ghost method StoreBack(n: nat)
      requires n < MAX_PROCESSES
      requires Separate() && OwnArrays() && Shape(sys) && Chained(sys)
      requires forall i :: 0 <= i < MAX_PROCESSES ==> sys.usage[i] == usage[i]
      requires sys.active == activeTask && sys.pde == pde && sys.esp0 == esp0
      requires forall i :: 0 <= i < MAX_PROCESSES && i != n ==> sys.pcbs[i] == pcbs[i].Data()
      requires Linked()
      modifies `sys
      ensures Valid() && sys == SetPcb(old(sys), n, pcbs[n].Data())
    {
      hide Chained, Pcb.Data, LinkAt;
      ChainedAlike(sys, SetPcb(sys, n, pcbs[n].Data()));
      sys := SetPcb(sys, n, pcbs[n].Data());
    }

    method Execute(file: Program, entry: Context) returns (o: ExecOutcome)
      requires Valid()
      modifies this, usage, heads, pcbs, Arrays()
      ensures Valid()
      ensures sys == ProcessSpec.Execute(old(sys), file, entry).sys
      ensures o == ProcessSpec.Execute(old(sys), file, entry).outcome
      ensures o.Started? ==> FreshProcess(sys, o.slot, entry)
    {
      hide Chained, OwnArrays, Linked, Pcb.Data, FirstFree, NoDup, FreshProcess, StdioOnly;
      ExecuteOutcomes(sys, file, entry);
      if file.Missing? {
        return Refused;
      }
      var n := AddPcb(activeTask);
      if n == -1 {
        return TableFull;
      }
      SetPageEntry(PageEntry(Frame(n)));
      if file.Corrupt? {
        return LoadFailed(n);
      }
      InitPcb(n, pcbs[n], entry);
      SetEsp0(KernelStack(n));
      return Started(n);
    }

    method SetPageEntry(e: int)
      requires Valid()
      modifies `sys, `pde
      ensures Valid() && sys == old(sys).(pde := e)
    {
      hide NoDup, OwnArrays, Pcb.Data, LinkAt;
      pde := e;
      sys := sys.(pde := e);
    }

    method SetEsp0(e: int)
      requires Valid()
      modifies `sys, `esp0
      ensures Valid() && sys == old(sys).(esp0 := e)
    {
      hide NoDup, OwnArrays, Pcb.Data, LinkAt;
      esp0 := e;
      sys := sys.(esp0 := e);
    }

    /** The blocks of a chain, each linked to the next; and what the links of the chain without its last block are. */
    lemma LinksOf(chain: seq<nat>, front: seq<nat>) returns (blocks: seq<Pcb>)
      requires Separate() && NoDup(chain) && chain != [] && forall j :: 0 <= j < |chain| ==> chain[j] < MAX_PROCESSES
      requires front == chain[..|chain| - 1]
      requires forall k :: 0 <= k < |chain| ==> LinkAt(chain, k)
      ensures |blocks| == |chain| && NoDup(blocks) && forall k :: 0 <= k < |chain| ==> blocks[k] == pcbs[chain[k]]
      ensures forall k :: 0 < k < |blocks| ==> blocks[k - 1].childPcb == blocks[k]
      ensures Last(blocks).childPcb == null
      ensures forall k :: 0 <= k < |front| - 1 ==> LinkAt(front, k)
    {
      blocks := seq(|chain|, k requires 0 <= k < |chain| => pcbs[chain[k]]);
      assert chain == front + [Last(chain)];
      assert LinkAt(chain, |chain| - 1);
      forall k | 0 < k < |blocks| ensures blocks[k - 1].childPcb == blocks[k] {
        LinkMeans(chain, k - 1);
      }
      forall k | 0 <= k < |front| - 1 ensures LinkAt(front, k) {
        LinkInLonger(front, Last(chain), k);
      }
    }

    /** Where the caller of halt hangs: its block, and its parent's when it has one. */
    method FindSelf() returns (self: Pcb, parent: Pcb?)
      requires Valid() && Occupied(sys, sys.active)
      ensures var chain := sys.chains[sys.active];
        && self == pcbs[Last(chain)]
        && if |chain| == 1 then parent == null else parent == pcbs[chain[|chain| - 2]]
    {
      hide Chained, OwnArrays, LinkAt, NoDup, Pcb.Data;
      ghost var chain := sys.chains[sys.active];
      ChainIsDistinct(sys, sys.active);
      ghost var blocks := LinksOf(chain, chain[..|chain| - 1]);
      self := GetPcbTail(activeTask);
      parent := heads[activeTask];
      if parent == self {
        BlocksDiffer(blocks);
        parent := null;
      } else {
        parent := FindParent(blocks, parent, self);
      }
    }

    lemma BlocksDiffer(blocks: seq<Pcb>)
      requires NoDup(blocks) && blocks != []
      ensures blocks[0] == Last(blocks) ==> |blocks| == 1
    {
    }

    /** The writes of halt that take the caller off its chain and out of the usage table. */
    method Detach(t: nat, self: Pcb, parent: Pcb?, ghost after: Sys)
      requires Separate() && OwnArrays() && t < TERM_SIZE && (parent == null || parent in pcbs) && Shape(after)
      requires forall u, k :: 0 <= u < TERM_SIZE && 0 <= k < |after.chains[u]| ==> KeptAt(after, u, k, parent, null)
      modifies usage, heads, if parent == null then {} else {parent}
      ensures forall i :: 0 <= i < MAX_PROCESSES ==> usage[i] == (i != old(self.pid) && old(usage[i]))
      ensures forall u :: 0 <= u < TERM_SIZE ==> heads[u] == if parent == null && u == t then null else old(heads[u])
      ensures forall i :: 0 <= i < MAX_PROCESSES ==>
        pcbs[i].childPcb == if pcbs[i] == parent then null else old(pcbs[i].childPcb)
      ensures forall i :: 0 <= i < MAX_PROCESSES ==> pcbs[i].Data() == old(pcbs[i].Data())
      ensures forall u, k :: 0 <= u < TERM_SIZE && 0 <= k < |after.chains[u]| ==>
        pcbs[after.chains[u][k]].childPcb == Block(after.chains[u], k + 1)
    {
      hide KeptAt;
      UnsetUsage(self.pid);
      assert forall i :: 0 <= i < MAX_PROCESSES ==> usage[i] == usage[..][i];
      if parent == null {
        heads[t] := null;
        AllKept(after, null);
      } else {
        SetChild(parent, null, after);
      }
    }

    /** The new last block of the running terminal, when its chain is not left empty. */
    ghost function NewTail(after: Sys): Pcb?
      requires Separate() && Shape(after)
    {
      var c := after.chains[after.active];
      if c == [] then null else pcbs[Last(c)]
    }

    lemma LinksLeft(after: Sys, u: nat, k: nat)
      requires Valid() && Forest(sys) && Occupied(sys, sys.active) && after == GiveBack(sys)
      requires u < TERM_SIZE && k < |after.chains[u]|
      ensures KeptAt(after, u, k, NewTail(after), null)
    {
      hide Chained, OwnArrays, NoDup, Pcb.Data, LinkAt, GiveBack;
      KeptPart(after, u, k);
      LinkMeans(sys.chains[u], k);
      var t := sys.active;
      if after.chains[t] != [] && !(u == t && k == |after.chains[t]| - 1) {
        KeptPart(after, t, |after.chains[t]| - 1);
        OnePlace(sys, u, k, t, |after.chains[t]| - 1);
      }
    }

    /** Leaving moves no other process, and only the new last block has its successor taken away. */
    lemma KeptPart(after: Sys, u: nat, k: nat)
      requires Separate() && Shape(sys) && Occupied(sys, sys.active) && after == GiveBack(sys)
      requires u < TERM_SIZE && k < |after.chains[u]|
      ensures after.active == sys.active && k < |sys.chains[u]| && after.chains[u][k] == sys.chains[u][k]
      ensures !(u == sys.active && k == |after.chains[u]| - 1) ==>
        Block(after.chains[u], k + 1) == Block(sys.chains[u], k + 1)
    {
    }

    /** Adopt a new ghost value once the fields agree with it. */
    ghost method Adopt(after: Sys)
      requires Separate() && OwnArrays() && Shape(after) && Chained(after)
      requires forall i :: 0 <= i < MAX_PROCESSES ==> after.usage[i] == usage[i]
      requires after.active == activeTask && after.pde == pde && after.esp0 == esp0
      requires forall i :: 0 <= i < MAX_PROCESSES ==> after.pcbs[i] == pcbs[i].Data()
      requires forall t :: 0 <= t < TERM_SIZE ==> heads[t] == Block(after.chains[t], 0)
      requires forall t, k :: 0 <= t < TERM_SIZE && 0 <= k < |after.chains[t]| ==>
        pcbs[after.chains[t][k]].childPcb == Block(after.chains[t], k + 1)
      requires forall i :: 0 <= i < MAX_PROCESSES && !usage[i] ==> pcbs[i].childPcb == null
      modifies `sys
      ensures Valid() && sys == after
    {
      hide Chained, Pcb.Data, OwnArrays;
      sys := after;
    }

    /** The first half of halt: the running process gives back its slot and leaves its chain. */
    method GiveBackSlot() returns (self: Pcb, parent: Pcb?)
      requires Valid() && Forest(sys) && Occupied(sys, sys.active)
      modifies `sys, usage, heads, pcbs
      ensures Valid() && sys == GiveBack(old(sys))
      ensures self == pcbs[Tail(old(sys), sys.active)]
      ensures if Occupied(sys, sys.active) then parent == pcbs[Tail(sys, sys.active)] else parent == null
    {
      self, parent := FindSelf();
      TailFields();
      hide Chained;
      Leave(self, parent);
    }

    lemma TailFields()
      requires Valid() && Forest(sys) && Occupied(sys, sys.active)
      ensures pcbs[Tail(sys, sys.active)].pid == Tail(sys, sys.active)
      ensures pcbs[Tail(sys, sys.active)].childPcb == null
    {
      hide OwnArrays, NoDup;
      TailIsAlone(sys, sys.active);
      assert pcbs[Tail(sys, sys.active)].Data().pid == Tail(sys, sys.active);
      assert LinkAt(sys.chains[sys.active], |sys.chains[sys.active]| - 1);
    }

    method Leave(self: Pcb, parent: Pcb?)
      requires Valid() && Forest(sys) && Occupied(sys, sys.active)
      requires self == pcbs[Tail(sys, sys.active)] && self.pid == Tail(sys, sys.active) && self.childPcb == null
      requires var chain := sys.chains[sys.active];
        if |chain| == 1 then parent == null else parent == pcbs[chain[|chain| - 2]]
      modifies `sys, usage, heads, pcbs
      ensures Valid() && sys == GiveBack(old(sys))
    {
      hide Chained, OwnArrays, LinkAt, KeptAt, NoDup, Pcb.Data, Valid, Unset, Forest, Linked, GiveBack;
      ghost var after := BeforeLeave(self, parent);
      Detach(activeTask, self, parent, after);
      Adopt(after);
    }

    /** The value leaving will lead to, and how it differs from what is stored. */
    lemma BeforeLeave(self: Pcb, parent: Pcb?) returns (after: Sys)
      requires Valid() && Forest(sys) && Occupied(sys, sys.active)
      requires var chain := sys.chains[sys.active];
        if |chain| == 1 then parent == null else parent == pcbs[chain[|chain| - 2]]
      requires self == pcbs[Tail(sys, sys.active)] && self.pid == Tail(sys, sys.active) && self.childPcb == null
      ensures Separate() && OwnArrays() && Shape(sys) && Shape(after) && Chained(after) && after == GiveBack(sys)
      ensures after.active == activeTask && after.pde == pde && after.esp0 == esp0
      ensures self.pid < MAX_PROCESSES && self == pcbs[self.pid] && parent == NewTail(after)
      ensures forall i :: 0 <= i < MAX_PROCESSES ==> after.usage[i] == (i != self.pid && usage[i])
      ensures forall i :: 0 <= i < MAX_PROCESSES ==> after.pcbs[i] == pcbs[i].Data()
      ensures forall i :: 0 <= i < MAX_PROCESSES && !after.usage[i] ==> pcbs[i].childPcb == null
      ensures forall u, k :: 0 <= u < TERM_SIZE && 0 <= k < |after.chains[u]| ==> KeptAt(after, u, k, parent, null)
      ensures forall u :: 0 <= u < TERM_SIZE ==>
        heads[u] == if u == activeTask && after.chains[u] == [] then heads[u] else Block(after.chains[u], 0)
    {
      hide Chained, Pcb.Data, LinkAt, KeptAt, NoDup, OwnArrays;
      self.DataFields();
      after := GiveBack(sys);
      GiveBackKeepsForest(sys);
      forall u, k | 0 <= u < TERM_SIZE && 0 <= k < |after.chains[u]| ensures KeptAt(after, u, k, parent, null) {
        LinksLeft(after, u, k);
      }
    }

    /** unset_process_usage. A pid past the table's end would write beyond it; no live block carries one. */
    method UnsetUsage(pid: nat)
      modifies usage
      ensures usage[..] == Unset(old(usage[..]), pid)
    {
      if pid < usage.Length {
        usage[pid] := false;
      }
    }

    method ReleaseFds(ghost n: nat, p: Pcb)
      requires Valid() && n < MAX_PROCESSES && p == pcbs[n]
      modifies `sys, p.fdArr
      ensures Valid() && sys == SetPcb(old(sys), n, old(sys).pcbs[n].(fds := ReleasedAll(old(sys).pcbs[n].fds)))
    {
      hide Chained, LinkAt, Pcb.Data;
      p.DataFields();
      ReleaseAll(p.fdArr);
      p.DataFields();
      StoreBack(n);
    }

    /** halt: a base shell is respawned; any other process hands the CPU back to its parent. */
    method Halt(entry: Context) returns (o: HaltOutcome)
      requires Valid() && Forest(sys) && Occupied(sys, sys.active)
      modifies this, usage, heads, pcbs, Arrays()
      ensures Valid()
      ensures sys == ProcessSpec.Halt(old(sys), entry).sys && o == ProcessSpec.Halt(old(sys), entry).outcome
    {
      hide Chained, Linked, OwnArrays;
      ghost var n := Tail(sys, activeTask);
      var self, parent := GiveBackSlot();
      if parent == null {
        var e := Execute(Runnable, entry);
        return Respawned(e);
      }
      parent.DataFields();
      var page, kStack := parent.page, parent.kStack;
      SetPageEntry(PageEntry(page));
      ReleaseFds(n, self);
      SetEsp0(kStack);
      self.DataFields();
      return Resumed(self.entry);
    }

    method SetActiveTask(t: nat)
      requires Valid() && t < TERM_SIZE
      modifies `sys, `activeTask
      ensures Valid() && sys == old(sys).(active := t)
    {
      hide NoDup, OwnArrays, Pcb.Data, LinkAt;
      activeTask := t;
      sys := sys.(active := t);
    }

    method SaveContext(ghost n: nat, p: Pcb, saved: Context)
      requires Valid() && n < MAX_PROCESSES && p == pcbs[n]
      modifies `sys, p`switched
      ensures Valid() && sys == SetPcb(old(sys), n, old(sys).pcbs[n].(switched := saved))
    {
      hide Chained, LinkAt, Pcb.Data;
      p.DataFields();
      p.switched := saved;
      p.DataFields();
      StoreBack(n);
    }

    /** The address-space half of a switch: esp0 and the user page of the incoming task. */
    method LoadTask(next: nat, incoming: Pcb) returns (context: Context)
      requires Valid() && next < TERM_SIZE && Occupied(sys, next) && incoming == pcbs[Tail(sys, next)]
      modifies `sys, `pde, `esp0
      ensures Valid()
      ensures var pcb := sys.pcbs[Tail(sys, next)];
        sys == old(sys).(esp0 := pcb.kStack, pde := PageEntry(pcb.page)) && context == pcb.switched
    {
      hide Chained, Linked, OwnArrays;
      incoming.DataFields();
      SetEsp0(incoming.kStack);
      SetPageEntry(PageEntry(incoming.page));
      return incoming.switched;
    }

    /** task_switch: save the outgoing terminal's context and load the next one's, or start its shell. */
    method TaskSwitch(saved: Context, entry: Context) returns (o: TickOutcome)
      requires Valid()
      modifies this, usage, heads, pcbs, Arrays()
      ensures Valid()
      ensures sys == Tick(old(sys), saved, entry).sys && o == Tick(old(sys), saved, entry).outcome
    {
      hide Chained, Linked, OwnArrays, ProcessSpec.Execute, Pcb.Data, NoDup, PageEntry, Tick, SetPcb;
      TickCases(sys, saved, entry);
      var next := (activeTask + 1) % TERM_SIZE;
      var incoming := GetPcbTail(next);
      var outgoing := GetPcbTail(activeTask);
      if outgoing == null {
        return Idle;
      }
      ghost var n := Tail(sys, activeTask);
      SetActiveTask(next);
      if incoming == null {
        SaveContext(n, outgoing, saved);
        var e := Execute(Runnable, entry);
        return Spawned(e);
      }
      var context := LoadTask(next, incoming);
      SaveContext(n, outgoing, saved);
      return Loaded(context);
    }
  }
}
