/**
 The round-robin run queue of one CPU, the timer tick and the context switch.
 Tasks are named by the address of their process control block.
 */
module Scheduler {

  const MAX_QUEUED_PROCESSES := 128
  const TWO64 := 0x1_0000_0000_0000_0000

  datatype ProcessState = Invalid | New | Ready | Running | Waiting | Terminated

  datatype CpuContext = CpuContext(
    rax: nat, rbx: nat, rcx: nat, rdx: nat, rsi: nat, rdi: nat, rbp: nat,
    r8: nat, r9: nat, r10: nat, r11: nat, r12: nat, r13: nat, r14: nat, r15: nat,
    rip: nat, rsp: nat, rflags: nat,
    cs: nat, ds: nat, es: nat, fs: nat, gs: nat, ss: nat)

  datatype InterruptFrame = InterruptFrame(rip: nat, cs: nat, rflags: nat, rsp: nat, ss: nat)

  datatype PtRegs = PtRegs(
    gs: nat, fs: nat, es: nat, ds: nat,
    r15: nat, r14: nat, r13: nat, r12: nat, r11: nat, r10: nat, r9: nat, r8: nat,
    rdi: nat, rsi: nat, rbp: nat, rbx: nat, rdx: nat, rcx: nat, rax: nat,
    intno: nat, error: nat, hwframe: InterruptFrame)

  datatype Pcb = Pcb(context: CpuContext, state: ProcessState, pid: int, cr3: nat, kernelStack: nat)

  function SaveCpuContext(f: PtRegs): CpuContext {
    CpuContext(f.rax, f.rbx, f.rcx, f.rdx, f.rsi, f.rdi, f.rbp,
               f.r8, f.r9, f.r10, f.r11, f.r12, f.r13, f.r14, f.r15,
               f.hwframe.rip, f.hwframe.rsp, f.hwframe.rflags,
               f.hwframe.cs, f.ds, f.es, f.fs, f.gs, f.hwframe.ss)
  }

  function RestoreCpuContext(c: CpuContext, f: PtRegs): PtRegs {
    PtRegs(c.gs, c.fs, c.es, c.ds,
           c.r15, c.r14, c.r13, c.r12, c.r11, c.r10, c.r9, c.r8,
           c.rdi, c.rsi, c.rbp, c.rbx, c.rdx, c.rcx, c.rax,
           f.intno, f.error, InterruptFrame(c.rip, c.cs, c.rflags, c.rsp, c.ss))
  }

  /** Saving and restoring are inverse; only the interrupt number and error code stay with the frame. */
  lemma ContextRoundTrip(f: PtRegs, c: CpuContext, g: PtRegs)
    ensures SaveCpuContext(RestoreCpuContext(c, g)) == c
    ensures RestoreCpuContext(SaveCpuContext(f), g) == f.(intno := g.intno, error := g.error)
  {
  }

  /** A saved context and a frame hold the same 24 registers, each under its own name. */
  ghost predicate SameRegisters(c: CpuContext, f: PtRegs) {
    && c.rax == f.rax && c.rbx == f.rbx && c.rcx == f.rcx && c.rdx == f.rdx
    && c.rsi == f.rsi && c.rdi == f.rdi && c.rbp == f.rbp
    && c.r8 == f.r8 && c.r9 == f.r9 && c.r10 == f.r10 && c.r11 == f.r11
    && c.r12 == f.r12 && c.r13 == f.r13 && c.r14 == f.r14 && c.r15 == f.r15
    && c.rip == f.hwframe.rip && c.rsp == f.hwframe.rsp && c.rflags == f.hwframe.rflags
    && c.cs == f.hwframe.cs && c.ss == f.hwframe.ss
    && c.ds == f.ds && c.es == f.es && c.fs == f.fs && c.gs == f.gs
  }

  // ------------------------------------------------------------------------- one CPU

  /** The run queue with the index of its current task, the blocks, and the CPU's own records and registers. */
  datatype Cpu = Cpu(
    tasks: seq<nat>, index: nat, pcbs: map<nat, Pcb>, swapper: nat,
    current: nat, frame: PtRegs, cr3: nat, kernelStack: nat)

  /** At least the swapper is queued, at index 0, and no task twice. */
  ghost predicate Wf(c: Cpu) {
    && 0 < |c.tasks| <= MAX_QUEUED_PROCESSES && c.index < |c.tasks| && c.tasks[0] == c.swapper
    && c.current in c.pcbs
    && (forall i :: 0 <= i < |c.tasks| ==> c.tasks[i] in c.pcbs)
    && (forall i, j :: 0 <= i < j < |c.tasks| ==> c.tasks[i] != c.tasks[j])
  }

  /** The queue and the per-CPU record name the same running task. */
  ghost predicate Agree(c: Cpu) {
    c.index < |c.tasks| && c.tasks[c.index] == c.current
  }

  /** One step around the queue that skips the swapper at index 0. */
  function NextIndex(index: nat, count: nat): (next: nat)
    requires index < count
    ensures next < count && (count >= 2 ==> next != 0)
  {
    if count == 1 then 0
    else if count == 2 then 1
    else
      var next := if index + 1 == count then 0 else index + 1;
      if next == 0 then 1 else next
  }

  /** The same step, by the remainder that the code takes. */
  lemma NextIndexByRemainder(index: nat, count: nat)
    requires index < count && count > 2
    ensures NextIndex(index, count) == if (index + 1) % count == 0 then 1 else (index + 1) % count
  {
    if index + 1 < count {
      assert (index + 1) % count == index + 1;
    }
  }

  function AddTask(c: Cpu, t: nat, b: Pcb): Cpu {
    if |c.tasks| == MAX_QUEUED_PROCESSES then c.(pcbs := c.pcbs[t := b])
    else c.(tasks := c.tasks + [t], pcbs := c.pcbs[t := b])
  }

  function SetState(c: Cpu, t: nat, s: ProcessState): Cpu
    requires t in c.pcbs
  {
    c.(pcbs := c.pcbs[t := c.pcbs[t].(state := s)])
  }

  function ScheduleNext(c: Cpu): Cpu
    requires Wf(c)
  {
    var next := NextIndex(c.index, |c.tasks|);
    if c.index == next then c
    else SetState(SetState(c, c.tasks[c.index], Ready), c.tasks[next], Running).(index := next)
  }

  /** The position of the first queued task with a pid; past the end if there is none. */
  function FindPid(c: Cpu, pid: int, from: nat): (i: nat)
    requires forall k :: 0 <= k < |c.tasks| ==> c.tasks[k] in c.pcbs
    requires from <= |c.tasks|
    ensures from <= i <= |c.tasks|
    ensures i < |c.tasks| ==> c.pcbs[c.tasks[i]].pid == pid
    ensures forall k :: from <= k < i ==> c.pcbs[c.tasks[k]].pid != pid
    decreases |c.tasks| - from
  {
    if from == |c.tasks| || c.pcbs[c.tasks[from]].pid == pid then from else FindPid(c, pid, from + 1)
  }

  function RemoveTask(c: Cpu, pid: int): Cpu
    requires Wf(c)
  {
    var i := FindPid(c, pid, 0);
    if pid == 0 || i == |c.tasks| then c
    else c.(tasks := c.tasks[..i] + c.tasks[i + 1..], index := (|c.tasks| - 2) % TWO64)
  }

  /** Saves the interrupted task and loads another into the interrupt frame. */
  function SwitchContext(c: Cpu, from: nat, to: nat): Cpu
    requires from in c.pcbs && to in c.pcbs
  {
    var saved := c.pcbs[from := c.pcbs[from].(context := SaveCpuContext(c.frame), cr3 := c.cr3,
                                              kernelStack := c.kernelStack)];
    LoadContext(c.(pcbs := saved), to)
  }

  function LoadContext(c: Cpu, to: nat): Cpu
    requires to in c.pcbs
  {
    c.(kernelStack := c.pcbs[to].kernelStack, frame := RestoreCpuContext(c.pcbs[to].context, c.frame),
       cr3 := c.pcbs[to].cr3, current := to)
  }

  /** The timer interrupt. */
  function Tick(c: Cpu): Cpu
    requires Wf(c)
  {
    var prev, next := c.tasks[c.index], c.tasks[NextIndex(c.index, |c.tasks|)];
    if prev == next then c else ScheduleNext(SwitchContext(c, prev, next))
  }

  /** The task that an exiting thread's CPU goes on with. */
  function ExitTarget(c: Cpu): nat
    requires Wf(c)
  {
    var prev, next := c.tasks[c.index], c.tasks[NextIndex(c.index, |c.tasks|)];
    if prev == next then c.swapper else next
  }

  /** Only the swapper may have pid 0, and no two queued tasks share a pid. */
  ghost predicate PidsDistinct(c: Cpu)
    requires forall k :: 0 <= k < |c.tasks| ==> c.tasks[k] in c.pcbs
  {
    && (forall i :: 0 < i < |c.tasks| ==> c.pcbs[c.tasks[i]].pid != 0)
    && (forall i, j :: 0 <= i < j < |c.tasks| ==> c.pcbs[c.tasks[i]].pid != c.pcbs[c.tasks[j]].pid)
  }

  ghost predicate CanExit(c: Cpu) {
    Wf(c) && c.index >= 1 && PidsDistinct(c)
  }

  lemma Removed(c: Cpu)
    requires CanExit(c)
    ensures RemoveTask(c, c.pcbs[c.tasks[c.index]].pid) ==
            c.(tasks := c.tasks[..c.index] + c.tasks[c.index + 1..], index := |c.tasks| - 2)
    ensures Wf(RemoveTask(c, c.pcbs[c.tasks[c.index]].pid))
  {
  }

  /** A thread ends itself: it leaves the queue, the queue schedules, and the CPU goes on with the target. */
  function ExitThread(c: Cpu): Cpu
    requires CanExit(c)
  {
    Removed(c);
    LoadContext(ScheduleNext(RemoveTask(c, c.pcbs[c.tasks[c.index]].pid)), ExitTarget(c))
  }

  // ------------------------------------------------------------------------- what a switch moves

  /** The CPU runs from this block: its registers, page table and kernel stack. */
  ghost predicate RunsFrom(c: Cpu, b: Pcb) {
    SameRegisters(b.context, c.frame) && c.cr3 == b.cr3 && c.kernelStack == b.kernelStack
  }

  /** Blocks differ at most in their state. */
  ghost predicate SameButState(a: Pcb, b: Pcb) {
    a.context == b.context && a.pid == b.pid && a.cr3 == b.cr3 && a.kernelStack == b.kernelStack
  }

  /** A switch saves each register under its own name, loads the other block the same way, and changes nothing else. */
  lemma SwitchMoves(c: Cpu, from: nat, to: nat)
    requires from in c.pcbs && to in c.pcbs && from != to
    ensures var d := SwitchContext(c, from, to);
            && d.pcbs.Keys == c.pcbs.Keys && RunsFrom(c, d.pcbs[from]) && RunsFrom(d, c.pcbs[to])
            && d.pcbs[from].state == c.pcbs[from].state && d.pcbs[from].pid == c.pcbs[from].pid
            && (forall t :: t in c.pcbs && t != from ==> d.pcbs[t] == c.pcbs[t])
            && d.tasks == c.tasks && d.index == c.index && d.swapper == c.swapper && d.current == to
            && d.frame.intno == c.frame.intno && d.frame.error == c.frame.error
  {
  }

  /** Scheduling moves the index one step and the two states with it. */
  lemma ScheduleMoves(c: Cpu)
    requires Wf(c)
    ensures var d, next := ScheduleNext(c), NextIndex(c.index, |c.tasks|);
            && d.(pcbs := c.pcbs, index := c.index) == c && d.index == next && d.pcbs.Keys == c.pcbs.Keys
            && (forall t :: t in c.pcbs ==> SameButState(c.pcbs[t], d.pcbs[t]))
            && (forall t :: t in c.pcbs && t != c.tasks[c.index] && t != c.tasks[next] ==> d.pcbs[t] == c.pcbs[t])
            && (next == c.index ==> d == c)
            && (next != c.index ==>
                  d.pcbs[c.tasks[c.index]].state == Ready && d.pcbs[c.tasks[next]].state == Running)
  {
  }

  /** A tick that finds another task: the whole new state. */
  lemma TickMoves(c: Cpu)
    requires Wf(c) && NextIndex(c.index, |c.tasks|) != c.index
    ensures var d, prev, next := Tick(c), c.tasks[c.index], c.tasks[NextIndex(c.index, |c.tasks|)];
            && d.tasks == c.tasks && d.index == NextIndex(c.index, |c.tasks|) && d.swapper == c.swapper
            && d.current == next && d.pcbs.Keys == c.pcbs.Keys
            && RunsFrom(c, d.pcbs[prev]) && RunsFrom(d, c.pcbs[next])
            && d.pcbs[prev].state == Ready && d.pcbs[next].state == Running
            && d.pcbs[prev].pid == c.pcbs[prev].pid && SameButState(c.pcbs[next], d.pcbs[next])
            && (forall t :: t in c.pcbs && t != prev && t != next ==> d.pcbs[t] == c.pcbs[t])
  {
    var prev, next := c.tasks[c.index], c.tasks[NextIndex(c.index, |c.tasks|)];
    SwitchMoves(c, prev, next);
    ScheduleMoves(SwitchContext(c, prev, next));
  }

  /** An exit: the exiting task leaves the queue, and the CPU runs from the block of the next one. */
  lemma ExitMoves(c: Cpu)
    requires CanExit(c)
    ensures var d, alone := ExitThread(c), NextIndex(c.index, |c.tasks|) == c.index;
            && d.tasks == c.tasks[..c.index] + c.tasks[c.index + 1..]
            && d.current == (if alone then c.swapper else c.tasks[NextIndex(c.index, |c.tasks|)])
            && d.current in c.pcbs && RunsFrom(d, c.pcbs[d.current])
            && d.pcbs.Keys == c.pcbs.Keys && (forall t :: t in c.pcbs ==> SameButState(c.pcbs[t], d.pcbs[t]))
  {
    Removed(c);
    ScheduleMoves(RemoveTask(c, c.pcbs[c.tasks[c.index]].pid));
  }

  // ------------------------------------------------------------------------- agreement

  lemma TickKeeps(c: Cpu)
    requires Wf(c)
    ensures Wf(Tick(c)) && Tick(c).tasks == c.tasks && Tick(c).index == NextIndex(c.index, |c.tasks|)
    ensures Agree(c) ==> Agree(Tick(c))
  {
  }

  /** After an exit the queue is always at the task that is now second, or at the swapper if it is alone. */
  lemma ExitIndex(c: Cpu)
    requires CanExit(c)
    ensures var d := ExitThread(c);
            && Wf(d) && d.tasks == c.tasks[..c.index] + c.tasks[c.index + 1..]
            && d.index == (if |d.tasks| == 1 then 0 else 1) && d.current == ExitTarget(c)
  {
    Removed(c);
  }

  /** The queue's current task is the one the CPU went on with exactly if the exiting task was first or last. */
  lemma ExitAgreement(c: Cpu)
    requires CanExit(c)
    ensures Agree(ExitThread(c)) <==> c.index == 1 || c.index == |c.tasks| - 1
  {
    ExitIndex(c);
  }

  /** After any other exit, the next tick stores the running task's registers in a different task's block. */
  lemma DisagreementLosesContext(c: Cpu, running: PtRegs)
    requires CanExit(c) && 1 < c.index < |c.tasks| - 1
    ensures var d := ExitThread(c).(frame := running);
            && Wf(d) && d.current == c.tasks[c.index + 1] && c.tasks[1] != d.current
            && SameRegisters(Tick(d).pcbs[c.tasks[1]].context, running)
            && Tick(d).pcbs[d.current].context == c.pcbs[d.current].context
  {
    ExitIndex(c);
  }

  /** A tick on one CPU during which another CPU adds a task between the switch and the scheduling. */
  function TickWithAdd(c: Cpu, t: nat, b: Pcb): Cpu
    requires Wf(c) && t !in c.pcbs
  {
    var prev, next := c.tasks[c.index], c.tasks[NextIndex(c.index, |c.tasks|)];
    if prev == next then AddTask(c, t, b) else ScheduleNext(AddTask(SwitchContext(c, prev, next), t, b))
  }

  lemma TickWithAddAgreement(c: Cpu, t: nat, b: Pcb)
    requires Wf(c) && Agree(c) && t !in c.pcbs
    ensures Agree(TickWithAdd(c, t, b)) <==>
            !(3 <= |c.tasks| < MAX_QUEUED_PROCESSES && c.index == |c.tasks| - 1)
  {
  }

  // ------------------------------------------------------------------------- runs of one CPU

  datatype Op =
    | DoTick
    | DoRun(frame: PtRegs, cr3: nat, kernelStack: nat)    // the running task changes the registers
    | DoAdd(task: nat, pcb: Pcb)
    | DoExit

  ghost predicate OpOk(c: Cpu, op: Op) {
    match op
    case DoTick => true
    case DoRun(_, _, _) => true
    case DoAdd(t, b) => t !in c.pcbs && b.state == Ready
    case DoExit => CanExit(c)
  }

  function Step(c: Cpu, op: Op): Cpu
    requires Wf(c) && OpOk(c, op)
  {
    match op
    case DoTick => Tick(c)
    case DoRun(f, r, k) => c.(frame := f, cr3 := r, kernelStack := k)
    case DoAdd(t, b) => AddTask(c, t, b)
    case DoExit => ExitThread(c)
  }

  /** An exit that leaves queue and CPU in agreement. */
  ghost predicate ExitOk(c: Cpu, op: Op) {
    op.DoExit? ==> c.index == 1 || c.index == |c.tasks| - 1
  }

  lemma StepKeeps(c: Cpu, op: Op)
    requires Wf(c) && OpOk(c, op)
    ensures Wf(Step(c, op))
    ensures Agree(c) && ExitOk(c, op) ==> Agree(Step(c, op))
  {
    match op {
      case DoTick => TickKeeps(c);
      case DoRun(_, _, _) =>
      case DoAdd(_, _) =>
      case DoExit =>
        ExitIndex(c);
        ExitAgreement(c);
    }
  }

  /** What a task must find again when it is resumed: 24 registers, page table and kernel stack. */
  datatype Snapshot = Snapshot(context: CpuContext, cr3: nat, kernelStack: nat)

  function Live(c: Cpu): Snapshot {
    Snapshot(SaveCpuContext(c.frame), c.cr3, c.kernelStack)
  }

  function Saved(c: Cpu, t: nat): Snapshot
    requires t in c.pcbs
  {
    Snapshot(c.pcbs[t].context, c.pcbs[t].cr3, c.pcbs[t].kernelStack)
  }

  /** Scheduling changes states, not saved registers. */
  lemma ScheduleKeepsSaved(c: Cpu, t: nat)
    requires Wf(c) && t in c.pcbs
    ensures var d := ScheduleNext(c);
            && d.pcbs.Keys == c.pcbs.Keys && Saved(d, t) == Saved(c, t)
            && Live(d) == Live(c) && d.current == c.current && d.tasks == c.tasks
  {
  }

  lemma LoadIsSaved(c: Cpu, t: nat)
    requires t in c.pcbs
    ensures Live(LoadContext(c, t)) == Saved(c, t)
  {
  }

  /** While a task is not running its block is untouched, and it is resumed from its block. */
  lemma OffCpu(c: Cpu, op: Op, t: nat)
    requires Wf(c) && Agree(c) && OpOk(c, op) && t in c.pcbs && t != c.current
    ensures t in Step(c, op).pcbs && Saved(Step(c, op), t) == Saved(c, t)
    ensures Step(c, op).current == t ==> Live(Step(c, op)) == Saved(c, t)
  {
    match op {
      case DoTick =>
        var prev, next := c.tasks[c.index], c.tasks[NextIndex(c.index, |c.tasks|)];
        if prev != next {
          ScheduleKeepsSaved(SwitchContext(c, prev, next), t);
        }
      case DoRun(_, _, _) =>
      case DoAdd(_, _) =>
      case DoExit =>
        Removed(c);
        var removed := RemoveTask(c, c.pcbs[c.tasks[c.index]].pid);
        ScheduleKeepsSaved(removed, t);
        LoadIsSaved(ScheduleNext(removed), ExitTarget(c));
    }
  }

  ghost predicate RunOk(c: Cpu, ops: seq<Op>)
    requires Wf(c)
    decreases |ops|
  {
    ops != [] ==> OpOk(c, ops[0]) && (StepKeeps(c, ops[0]); RunOk(Step(c, ops[0]), ops[1..]))
  }

  /** Every exit of the run leaves queue and CPU in agreement. */
  ghost predicate ExitsOk(c: Cpu, ops: seq<Op>)
    requires Wf(c) && RunOk(c, ops)
    decreases |ops|
  {
    ops != [] ==> ExitOk(c, ops[0]) && (StepKeeps(c, ops[0]); ExitsOk(Step(c, ops[0]), ops[1..]))
  }

  function Exec(c: Cpu, ops: seq<Op>): (d: Cpu)
    requires Wf(c) && RunOk(c, ops)
    ensures Wf(d)
    decreases |ops|
  {
    if ops == [] then c else StepKeeps(c, ops[0]); Exec(Step(c, ops[0]), ops[1..])
  }

  /** The task is not running at any point of the run. */
  ghost predicate Away(c: Cpu, ops: seq<Op>, t: nat)
    requires Wf(c) && RunOk(c, ops)
    decreases |ops|
  {
    c.current != t && (ops != [] ==> (StepKeeps(c, ops[0]); Away(Step(c, ops[0]), ops[1..], t)))
  }

  lemma {:induction false} AwayKeepsSaved(c: Cpu, ops: seq<Op>, t: nat)
    requires Wf(c) && Agree(c) && RunOk(c, ops) && ExitsOk(c, ops) && Away(c, ops, t) && t in c.pcbs
    ensures var d := Exec(c, ops); Agree(d) && d.current != t && t in d.pcbs && Saved(d, t) == Saved(c, t)
    decreases |ops|
  {
    if ops != [] {
      StepKeeps(c, ops[0]);
      OffCpu(c, ops[0], t);
      AwayKeepsSaved(Step(c, ops[0]), ops[1..], t);
    }
  }

  /**
   A task that a tick preempts, and that runs again only after any further ticks, additions, exits and
   register changes, is resumed with exactly what it had when it was preempted.
   */
  lemma ResumeExact(c: Cpu, ops: seq<Op>, last: Op)
    requires Wf(c) && Agree(c)
    requires Wf(Tick(c)) && RunOk(Tick(c), ops) && ExitsOk(Tick(c), ops) && Away(Tick(c), ops, c.current)
    requires OpOk(Exec(Tick(c), ops), last) && Step(Exec(Tick(c), ops), last).current == c.current
    ensures Live(Step(Exec(Tick(c), ops), last)) == Live(c)
    ensures var d := Step(Exec(Tick(c), ops), last); d.frame == c.frame.(intno := d.frame.intno, error := d.frame.error)
  {
    var t := c.current;
    TickKeeps(c);
    assert Saved(Tick(c), t) == Live(c);
    AwayKeepsSaved(Tick(c), ops, t);
    OffCpu(Exec(Tick(c), ops), last, t);
    var d := Step(Exec(Tick(c), ops), last);
    ContextRoundTrip(c.frame, d.pcbs[t].context, d.frame);
    ContextRoundTrip(d.frame, d.pcbs[t].context, d.frame);
  }

  /**
   A task that is added with block `b` starts with exactly the registers, page table and kernel stack of `b`, whatever
   ticks, additions, exits and register changes come before its first turn.
   */
  lemma StartsFromBlock(c: Cpu, t: nat, b: Pcb, ops: seq<Op>, last: Op)
    requires Wf(c) && Agree(c) && OpOk(c, DoAdd(t, b)) && Wf(Step(c, DoAdd(t, b)))
    requires var c1 := Step(c, DoAdd(t, b)); RunOk(c1, ops) && ExitsOk(c1, ops) && Away(c1, ops, t)
    requires var e := Exec(Step(c, DoAdd(t, b)), ops); OpOk(e, last) && Step(e, last).current == t
    ensures RunsFrom(Step(Exec(Step(c, DoAdd(t, b)), ops), last), b)
  {
    var c1 := Step(c, DoAdd(t, b));
    StepKeeps(c, DoAdd(t, b));
    AwayKeepsSaved(c1, ops, t);
    OffCpu(Exec(c1, ops), last, t);
    LiveRegisters(Step(Exec(c1, ops), last), c1, t);
  }

  lemma LiveRegisters(d: Cpu, c: Cpu, t: nat)
    requires t in c.pcbs && Live(d) == Saved(c, t)
    ensures RunsFrom(d, c.pcbs[t])
  {
  }

  lemma ExecCons(c: Cpu, op: Op, d: Cpu, ops: seq<Op>)
    requires Wf(c) && OpOk(c, op) && d == Step(c, op) && Wf(d) && RunOk(d, ops)
    ensures RunOk(c, [op] + ops) && Exec(c, [op] + ops) == Exec(d, ops)
  {
    assert ([op] + ops)[1..] == ops;
  }

  lemma ExecFirst(c: Cpu, ops: seq<Op>) returns (d: Cpu)
    requires Wf(c) && RunOk(c, ops) && ops != []
    ensures OpOk(c, ops[0]) && d == Step(c, ops[0]) && Wf(d) && RunOk(d, ops[1..]) && Exec(c, ops) == Exec(d, ops[1..])
  {
    StepKeeps(c, ops[0]);
    d := Step(c, ops[0]);
  }

  lemma {:induction false} ExecSnoc(c: Cpu, ops: seq<Op>, op: Op)
    requires Wf(c) && RunOk(c, ops) && OpOk(Exec(c, ops), op)
    ensures RunOk(c, ops + [op]) && Exec(c, ops + [op]) == Step(Exec(c, ops), op)
    decreases |ops|
  {
    if ops == [] {
      StepKeeps(c, op);
      ExecCons(c, op, Step(c, op), []);
      assert ops + [op] == [op] + [];
    } else {
      var d := ExecFirst(c, ops);
      ExecSnoc(d, ops[1..], op);
      ExecCons(c, ops[0], d, ops[1..] + [op]);
      assert ops + [op] == [ops[0]] + (ops[1..] + [op]);
    }
  }

  /** Disagreement is reached: three tasks are added, two ticks later the task in the middle exits. */
  lemma DisagreementReached(c: Cpu, a: nat, b: nat, d: nat, pa: Pcb, pb: Pcb, pd: Pcb)
    requires Wf(c) && Agree(c) && c.tasks == [c.swapper] && c.pcbs.Keys == {c.swapper} && c.pcbs[c.swapper].pid == 0
    requires AllDifferent(c.swapper, a, b, d) && AllDifferent(0, pa.pid, pb.pid, pd.pid)
    requires pa.state == pb.state == pd.state == Ready
    ensures var ops := [DoAdd(a, pa), DoAdd(b, pb), DoAdd(d, pd), DoTick, DoTick];
            && RunOk(c, ops) && Agree(Exec(c, ops)) && OpOk(Exec(c, ops), DoExit)
            && !Agree(Step(Exec(c, ops), DoExit))
  {
    Added(c, a, b, d, pa, pb, pd);
    var adds := [DoAdd(a, pa), DoAdd(b, pb), DoAdd(d, pd)];
    ExitAfterTwoTicks(c, adds);
    assert adds + [DoTick] + [DoTick] == [DoAdd(a, pa), DoAdd(b, pb), DoAdd(d, pd), DoTick, DoTick];
  }

  lemma ExitAfterTwoTicks(c: Cpu, ops: seq<Op>)
    requires Wf(c) && RunOk(c, ops)
    requires var e := Exec(c, ops); Agree(e) && e.index == 0 && |e.tasks| == 4 && PidsDistinct(e)
    ensures var more := ops + [DoTick] + [DoTick];
            RunOk(c, more) && Agree(Exec(c, more)) && OpOk(Exec(c, more), DoExit) && !Agree(Step(Exec(c, more), DoExit))
  {
    TwoTicksAndExit(Exec(c, ops));
    ExecSnoc(c, ops, DoTick);
    ExecSnoc(c, ops + [DoTick], DoTick);
  }

  /** Of four tasks with different pids, the one that runs after two ticks exits. */
  lemma TwoTicksAndExit(e: Cpu)
    requires Wf(e) && Agree(e) && e.index == 0 && |e.tasks| == 4 && PidsDistinct(e)
    ensures OpOk(e, DoTick) && Wf(Tick(e)) && OpOk(Tick(e), DoTick) && Wf(Tick(Tick(e))) && Agree(Tick(Tick(e)))
    ensures OpOk(Tick(Tick(e)), DoExit) && !Agree(Step(Tick(Tick(e)), DoExit))
  {
    TickKeeps(e);
    TickPids(e);
    TickKeeps(Tick(e));
    TickPids(Tick(e));
    ExitAgreement(Tick(Tick(e)));
  }

  /** Ticks change no pid. */
  lemma TickPids(c: Cpu)
    requires Wf(c)
    ensures forall t :: t in c.pcbs ==> t in Tick(c).pcbs && Tick(c).pcbs[t].pid == c.pcbs[t].pid
    ensures PidsDistinct(c) && Wf(Tick(c)) ==> PidsDistinct(Tick(c))
  {
    TickKeeps(c);
  }

  lemma Added(c: Cpu, a: nat, b: nat, d: nat, pa: Pcb, pb: Pcb, pd: Pcb)
    requires Wf(c) && Agree(c) && c.tasks == [c.swapper] && c.pcbs.Keys == {c.swapper} && c.pcbs[c.swapper].pid == 0
    requires AllDifferent(c.swapper, a, b, d) && AllDifferent(0, pa.pid, pb.pid, pd.pid)
    requires pa.state == pb.state == pd.state == Ready
    ensures var adds := [DoAdd(a, pa), DoAdd(b, pb), DoAdd(d, pd)];
            && RunOk(c, adds) && Exec(c, adds).tasks == [c.swapper, a, b, d]
            && Agree(Exec(c, adds)) && Exec(c, adds).index == 0 && PidsDistinct(Exec(c, adds))
  {
    ExecSnoc(c, [], DoAdd(a, pa));
    var c1 := AddTask(c, a, pa);
    assert [] + [DoAdd(a, pa)] == [DoAdd(a, pa)];
    ExecSnoc(c, [DoAdd(a, pa)], DoAdd(b, pb));
    var c2 := AddTask(c1, b, pb);
    assert [DoAdd(a, pa)] + [DoAdd(b, pb)] == [DoAdd(a, pa), DoAdd(b, pb)];
    ExecSnoc(c, [DoAdd(a, pa), DoAdd(b, pb)], DoAdd(d, pd));
    assert [DoAdd(a, pa), DoAdd(b, pb)] + [DoAdd(d, pd)] == [DoAdd(a, pa), DoAdd(b, pb), DoAdd(d, pd)];
    assert AddTask(c2, d, pd).tasks == [c.swapper, a, b, d];
  }

  predicate AllDifferent<T(==)>(a: T, b: T, c: T, d: T) {
    a != b && a != c && a != d && b != c && b != d && c != d
  }

  // ------------------------------------------------------------------------- fairness

  function Ticks(ops: seq<Op>): nat {
    if ops == [] then 0 else Ticks(ops[1..]) + if ops[0].DoTick? then 1 else 0
  }

  /** The queue comes to index `j` at some point of the run. */
  ghost predicate Reaches(c: Cpu, ops: seq<Op>, j: nat)
    requires Wf(c) && RunOk(c, ops)
    decreases |ops|
  {
    c.index == j || (ops != [] && (StepKeeps(c, ops[0]); Reaches(Step(c, ops[0]), ops[1..], j)))
  }

  /** An upper bound on the ticks from index `i` to index `j`, whatever is added meanwhile. */
  function Distance(i: nat, j: nat): int {
    if i <= j then j - i else MAX_QUEUED_PROCESSES - 1 - i + j
  }

  lemma {:induction false} ReachedWithinDistance(c: Cpu, ops: seq<Op>, j: nat)
    requires Wf(c) && RunOk(c, ops) && forall i :: 0 <= i < |ops| ==> !ops[i].DoExit?
    requires 1 <= j < |c.tasks| && Ticks(ops) >= Distance(c.index, j)
    ensures Reaches(c, ops, j)
    decreases |ops|
  {
    if c.index != j {
      assert ops != [];
      var d := Step(c, ops[0]);
      StepKeeps(c, ops[0]);
      if ops[0].DoTick? { TickKeeps(c); }
      assert j < |d.tasks| && Ticks(ops[1..]) >= Distance(d.index, j);
      ReachedWithinDistance(d, ops[1..], j);
    }
  }

  /** With tasks only added, every queued task but the swapper becomes current within 127 ticks. */
  lemma EveryTaskRuns(c: Cpu, ops: seq<Op>, j: nat)
    requires Wf(c) && RunOk(c, ops) && forall i :: 0 <= i < |ops| ==> !ops[i].DoExit?
    requires 1 <= j < |c.tasks| && Ticks(ops) >= MAX_QUEUED_PROCESSES - 1
    ensures Reaches(c, ops, j)
  {
    ReachedWithinDistance(c, ops, j);
  }

  // ------------------------------------------------------------------------- task states

  /** Only the queue's current task is marked running. */
  ghost predicate OneRunning(c: Cpu) {
    forall i :: 0 <= i < |c.tasks| && c.tasks[i] in c.pcbs && c.pcbs[c.tasks[i]].state == Running ==> i == c.index
  }

  lemma ScheduleOneRunning(c: Cpu)
    requires Wf(c) && OneRunning(c)
    ensures OneRunning(ScheduleNext(c))
    ensures c.index != NextIndex(c.index, |c.tasks|) ==>
              ScheduleNext(c).pcbs[c.tasks[NextIndex(c.index, |c.tasks|)]].state == Running
  {
  }

  lemma ExitOneRunning(c: Cpu)
    requires CanExit(c) && OneRunning(c)
    ensures OneRunning(ExitThread(c))
  {
    Removed(c);
    var d := RemoveTask(c, c.pcbs[c.tasks[c.index]].pid);
    forall i | 0 <= i < |d.tasks| ensures d.pcbs[d.tasks[i]].state != Running {
      assert d.tasks[i] == c.tasks[if i < c.index then i else i + 1];
    }
    ScheduleOneRunning(d);
  }

  /** Every tick, addition and exit keeps at most one queued task running; a tick keeps one if there was one. */
  lemma OneRunningKept(c: Cpu, op: Op)
    requires Wf(c) && OpOk(c, op) && OneRunning(c)
    ensures OneRunning(Step(c, op))
    ensures op.DoTick? && c.pcbs[c.tasks[c.index]].state == Running ==>
              Tick(c).pcbs[c.tasks[NextIndex(c.index, |c.tasks|)]].state == Running
  {
    match op {
      case DoTick =>
        var prev, next := c.tasks[c.index], c.tasks[NextIndex(c.index, |c.tasks|)];
        if prev != next {
          ScheduleOneRunning(SwitchContext(c, prev, next));
        }
      case DoRun(_, _, _) =>
      case DoAdd(_, _) =>
      case DoExit => ExitOneRunning(c);
    }
  }

  /** In every run of ticks, additions and exits, at most one queued task is running, and it is the current one. */
  lemma {:induction false} RunOneRunning(c: Cpu, ops: seq<Op>)
    requires Wf(c) && RunOk(c, ops) && OneRunning(c)
    ensures OneRunning(Exec(c, ops))
    decreases |ops|
  {
    if ops != [] {
      StepKeeps(c, ops[0]);
      OneRunningKept(c, ops[0]);
      RunOneRunning(Step(c, ops[0]), ops[1..]);
    }
  }

  /** Every queued task but the queue's current one is ready. */
  ghost predicate OthersReady(c: Cpu) {
    forall i :: 0 <= i < |c.tasks| && i != c.index ==> c.tasks[i] in c.pcbs && c.pcbs[c.tasks[i]].state == Ready
  }

  lemma ScheduleReady(c: Cpu)
    requires Wf(c) && OthersReady(c)
    ensures OthersReady(ScheduleNext(c))
  {
  }

  /**
   An exit marks the task that the queue stands at running exactly if at least three tasks are left; with two left the
   queue stands at the second and finds no other, so that task runs on as ready.
   */
  lemma ExitMarksRunning(c: Cpu)
    requires CanExit(c) && OthersReady(c)
    ensures var d := ExitThread(c);
            Wf(d) && OthersReady(d) && (d.pcbs[d.tasks[d.index]].state == Running <==> |d.tasks| >= 3)
  {
    ExitIndex(c);
    Removed(c);
    var d := RemoveTask(c, c.pcbs[c.tasks[c.index]].pid);
    forall i | 0 <= i < |d.tasks| ensures d.pcbs[d.tasks[i]].state == Ready {
      assert d.tasks[i] == c.tasks[if i < c.index then i else i + 1];
    }
    ScheduleReady(d);
  }

  lemma ReadyKept(c: Cpu, op: Op)
    requires Wf(c) && OpOk(c, op) && OthersReady(c)
    ensures OthersReady(Step(c, op))
  {
    match op {
      case DoTick => if NextIndex(c.index, |c.tasks|) != c.index { TickMoves(c); }
      case DoRun(_, _, _) =>
      case DoAdd(_, _) =>
      case DoExit => ExitMarksRunning(c);
    }
  }

  /** In every run of ticks, additions and exits every queued task but the current one is ready. */
  lemma {:induction false} RunKeepsReady(c: Cpu, ops: seq<Op>)
    requires Wf(c) && RunOk(c, ops) && OthersReady(c)
    ensures OthersReady(Exec(c, ops))
    decreases |ops|
  {
    if ops != [] {
      StepKeeps(c, ops[0]);
      ReadyKept(c, ops[0]);
      RunKeepsReady(Step(c, ops[0]), ops[1..]);
    }
  }

  // ------------------------------------------------------------------------- the objects

  /** The first CPU with the fewest queued tasks. */
  method GetNextAvailableCpu(sizes: seq<nat>) returns (cpu: nat)
    requires sizes != []
    ensures cpu < |sizes| && forall i :: 0 <= i < |sizes| ==> sizes[cpu] <= sizes[i]
    ensures forall i :: 0 <= i < cpu ==> sizes[cpu] < sizes[i]
  {
    cpu := 0;
    var least := sizes[0];
    for i := 1 to |sizes|
      invariant cpu < i && least == sizes[cpu]
      invariant forall j :: 0 <= j < i ==> least <= sizes[j]
      invariant forall j :: 0 <= j < cpu ==> least < sizes[j]
    {
      if sizes[i] < least {
        cpu, least := i, sizes[i];
      }
    }
  }

  class CpuCore {
    var tasks: seq<nat>
    var currentTaskIndex: nat
    var pcbs: map<nat, Pcb>
    const swapper: nat
    var currentTask: nat
    var frame: PtRegs
    var cr3: nat
    var currentKernelStack: nat

    ghost function State(): Cpu
      reads this
    {
      Cpu(tasks, currentTaskIndex, pcbs, swapper, currentTask, frame, cr3, currentKernelStack)
    }

    constructor (swapper: nat, block: Pcb, frame: PtRegs, cr3: nat, kernelStack: nat)
      ensures State() == Cpu([swapper], 0, map[swapper := block], swapper, swapper, frame, cr3, kernelStack)
      ensures Wf(State()) && Agree(State())
    {
      this.swapper := swapper;
      tasks, currentTaskIndex, pcbs := [swapper], 0, map[swapper := block];
      currentTask, this.frame, this.cr3, currentKernelStack := swapper, frame, cr3, kernelStack;
    }

    method AddToQueue(t: nat, b: Pcb) returns (ok: bool)
      modifies this
      ensures State() == AddTask(old(State()), t, b) && ok == (old(|tasks|) != MAX_QUEUED_PROCESSES)
      ensures pcbs == old(pcbs)[t := b] && tasks == if ok then old(tasks) + [t] else old(tasks)
      ensures unchanged(`currentTaskIndex, `currentTask, `frame, `cr3, `currentKernelStack)
    {
      pcbs := pcbs[t := b];
      if |tasks| == MAX_QUEUED_PROCESSES {
        return false;
      }
      tasks := tasks + [t];
      return true;
    }

    method RemoveFromQueue(pid: int) returns (ok: bool)
      requires Wf(State())
      modifies this
      ensures State() == RemoveTask(old(State()), pid)
      ensures ok == (pid != 0 && exists i :: 0 <= i < |old(tasks)| && old(pcbs)[old(tasks)[i]].pid == pid)
      ensures ok ==> exists i :: 0 <= i < |old(tasks)| && old(pcbs)[old(tasks)[i]].pid == pid &&
                       tasks == old(tasks)[..i] + old(tasks)[i + 1..] && currentTaskIndex == (|tasks| - 1) % TWO64
      ensures !ok ==> State() == old(State())
    {
      if pid == 0 {
        return false;
      }
      var i := 0;
      while i < |tasks|
        invariant State() == old(State()) && i <= |tasks|
        invariant FindPid(State(), pid, 0) == FindPid(State(), pid, i)
        invariant forall k :: 0 <= k < i ==> pcbs[tasks[k]].pid != pid
      {
        if pcbs[tasks[i]].pid == pid {
          tasks := tasks[..i] + tasks[i + 1..];
          currentTaskIndex := (|tasks| - 1) % TWO64;
          return true;
        }
        i := i + 1;
      }
      return false;
    }

    method ScheduleNextTask()
      requires Wf(State())
      modifies this`pcbs, this`currentTaskIndex
      ensures State() == ScheduleNext(old(State())) && currentTaskIndex == NextIndex(old(currentTaskIndex), |tasks|)
      ensures var cur, next := tasks[old(currentTaskIndex)], tasks[currentTaskIndex];
              pcbs == if currentTaskIndex == old(currentTaskIndex) then old(pcbs)
                      else old(pcbs)[cur := old(pcbs[cur]).(state := Ready)][next := old(pcbs[next]).(state := Running)]
    {
      var next := NextIndex(currentTaskIndex, |tasks|);
      if currentTaskIndex == next {
        return;
      }
      var cur, nxt := tasks[currentTaskIndex], tasks[next];
      pcbs := pcbs[cur := pcbs[cur].(state := Ready)];
      pcbs := pcbs[nxt := pcbs[nxt].(state := Running)];
      currentTaskIndex := next;
    }

    method SwitchContextInIrq(from: nat, to: nat)
      requires from in pcbs && to in pcbs
      modifies this
      ensures State() == SwitchContext(old(State()), from, to)
      ensures from != to ==> RunsFrom(old(State()), pcbs[from]) && RunsFrom(State(), old(pcbs)[to])
    {
      pcbs := pcbs[from := pcbs[from].(context := SaveCpuContext(frame))];
      pcbs := pcbs[from := pcbs[from].(cr3 := cr3)];
      pcbs := pcbs[from := pcbs[from].(kernelStack := currentKernelStack)];
      currentKernelStack := pcbs[to].kernelStack;
      frame := RestoreCpuContext(pcbs[to].context, frame);
      cr3 := pcbs[to].cr3;
      currentTask := to;
    }

    /** Goes on with another task, without saving the registers of this one. */
    method ExitAndSwitchCurrentContext(to: nat)
      requires to in pcbs
      modifies `currentKernelStack, `frame, `cr3, `currentTask
      ensures State() == LoadContext(old(State()), to) && RunsFrom(State(), pcbs[to]) && currentTask == to
    {
      currentKernelStack := pcbs[to].kernelStack;
      frame := RestoreCpuContext(pcbs[to].context, frame);
      cr3 := pcbs[to].cr3;
      currentTask := to;
    }

    method TimerIrq()
      requires Wf(State())
      modifies this
      ensures Wf(State()) && State() == Tick(old(State()))
      ensures currentTaskIndex != old(currentTaskIndex) ==>
                RunsFrom(old(State()), pcbs[tasks[old(currentTaskIndex)]]) && RunsFrom(State(), old(pcbs)[currentTask])
    {
      TickKeeps(State());
      if NextIndex(currentTaskIndex, |tasks|) != currentTaskIndex { TickMoves(State()); }
      var prevTask, nextTask := tasks[currentTaskIndex], tasks[NextIndex(currentTaskIndex, |tasks|)];
      if prevTask != nextTask {
        SwitchContextInIrq(prevTask, nextTask);
        ScheduleNextTask();
      }
    }

    method ExitKernelThread()
      requires CanExit(State())
      modifies this
      ensures Wf(State()) && State() == ExitThread(old(State()))
      ensures currentTask in old(pcbs) && RunsFrom(State(), old(pcbs)[currentTask])
      ensures tasks == old(tasks)[..old(currentTaskIndex)] + old(tasks)[old(currentTaskIndex) + 1..]
    {
      ExitMoves(State());
      ExitIndex(State());
      Removed(State());
      var cur, nextTask := tasks[currentTaskIndex], tasks[NextIndex(currentTaskIndex, |tasks|)];
      if cur == nextTask {
        nextTask := swapper;
      }
      var _ := RemoveFromQueue(pcbs[cur].pid);
      ScheduleNextTask();
      ExitAndSwitchCurrentContext(nextTask);
    }
  }
}
