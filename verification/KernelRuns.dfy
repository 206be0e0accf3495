/** Whole runs of the kernel: user code runs and may write anywhere, an interrupt enters the kernel with a
    frame in the current task's stack, and the kernel resumes some task. */
module KernelRuns {
  import opened Words
  import opened Machine
  import opened ProcessTables
  import opened KernelInvariant
  import opened Scheduling

  /** An entry into the kernel: the memory as user code left it and the address of the saved frame.
      A system call also carries what the heap would provide for a new task. */
  datatype Event =
    | Timer(mem: Memory, esp: nat)
    | Syscall(mem: Memory, esp: nat, stack: nat, junk: PCB)

  ghost predicate SameStack(m: Memory, m': Memory, base: nat) {
    && base + STACK_SIZE <= |m| == |m'|
    && forall a :: base <= a < base + STACK_SIZE ==> m'[a] == m[a]
  }

  /** The stack at base is as it was, but for a 1 in the ecx of the frame at f. */
  ghost predicate SameStackButEcx(m: Memory, m': Memory, base: nat, f: nat) {
    && base + STACK_SIZE <= |m| == |m'| && InStack(base, f) && Load(m', f + ECX) == 1
    && forall a :: base <= a < base + STACK_SIZE && !(f + ECX <= a < f + ECX + 4) ==> m'[a] == m[a]
  }

  /** The kernel on entry: as it was left, with the user's memory. */
  function Entered(k: Kernel, ev: Event): Kernel { k.(mem := ev.mem) }

  /** Between two entries anything may be written anywhere in memory, also into the stacks of other tasks. */
  ghost predicate Enabled(k: Kernel, ev: Event) {
    && Sane(k) && |ev.mem| == |k.mem| && FrameOk(k, ev.esp)
    && (ev.Syscall? ==> SyscallOk(Entered(k, ev), ev.esp, ev.stack))
  }

  ghost function Next(k: Kernel, ev: Event): Outcome
    requires Enabled(k, ev)
  {
    match ev
    case Timer(m, esp) => Schedule(Entered(k, ev), esp)
    case Syscall(m, esp, stack, junk) => HandleInterrupt(Entered(k, ev), esp, stack, junk)
  }

  ghost predicate Boot(k: Kernel) { Inv(k) && k.current == -1 }

  ghost predicate Step(k: Kernel, ev: Event, k': Kernel) {
    Enabled(k, ev) && Next(k, ev).Returns? && Next(k, ev).kernel == k'
  }

  ghost predicate StepAt(ss: seq<Kernel>, evs: seq<Event>, i: nat)
    requires |ss| == |evs| + 1 && i < |evs|
  {
    Step(ss[i], evs[i], ss[i + 1])
  }

  /** ss[i + 1] is where entry evs[i] leaves the kernel when it finds it in ss[i]. */
  ghost predicate Run(ss: seq<Kernel>, evs: seq<Event>) {
    && |ss| == |evs| + 1 && Boot(ss[0])
    && forall i :: 0 <= i < |evs| ==> StepAt(ss, evs, i)
  }

  /** The frame at which the kernel resumed user code after entry i. */
  ghost function Resumed(ss: seq<Kernel>, evs: seq<Event>, i: nat): nat
    requires Run(ss, evs) && i < |evs|
  {
    assert StepAt(ss, evs, i);
    Next(ss[i], evs[i]).frame
  }

  // ----- the invariant over runs

  lemma EnteredInv(k: Kernel, ev: Event)
    requires Inv(k) && Enabled(k, ev)
    ensures Inv(Entered(k, ev))
  {
  }

  lemma StepKeeps(k: Kernel, ev: Event, k': Kernel)
    requires Inv(k) && Step(k, ev, k')
    ensures Inv(k') && k'.current >= 0
  {
    EnteredInv(k, ev);
    match ev
    case Timer(m, esp) => ScheduleKeeps(Entered(k, ev), esp);
    case Syscall(m, esp, stack, junk) => HandleInterruptKeeps(Entered(k, ev), esp, stack, junk);
  }

  lemma StepAtKeeps(ss: seq<Kernel>, evs: seq<Event>, i: nat)
    requires |ss| == |evs| + 1 && i < |evs| && StepAt(ss, evs, i) && Inv(ss[i])
    ensures Inv(ss[i + 1]) && ss[i + 1].current >= 0
  {
    StepKeeps(ss[i], evs[i], ss[i + 1]);
  }

  /** The global invariant at every return to user code. */
  lemma {:induction false} RunKeeps(ss: seq<Kernel>, evs: seq<Event>, i: nat)
    requires Run(ss, evs) && i < |ss|
    ensures Inv(ss[i]) && (i > 0 ==> ss[i].current >= 0)
  {
    if i > 0 {
      RunKeeps(ss, evs, i - 1);
      assert StepAt(ss, evs, i - 1);
      StepAtKeeps(ss, evs, i - 1);
    }
  }

  // ----- which entries reach the scheduler

  ghost predicate IsCall(k: Kernel, ev: Event, eax: Word)
    requires Enabled(k, ev)
  {
    ev.Syscall? && Load(ev.mem, ev.esp + EAX) == eax
  }

  /** A waitpid whose pid names another task. */
  ghost predicate IsWait(k: Kernel, ev: Event, pid: Word)
    requires Enabled(k, ev)
  {
    IsCall(k, ev, WAITPID_INT) && Load(ev.mem, ev.esp + EBX) == pid && CanWait(k, pid)
  }

  ghost predicate Schedules(k: Kernel, ev: Event)
    requires Enabled(k, ev)
  {
    ev.Timer? || IsCall(k, ev, EXIT_INT) || (IsCall(k, ev, WAITPID_INT) && CanWait(k, Load(ev.mem, ev.esp + EBX)))
  }

  /** The kernel the scheduler is called on. */
  function AtSchedule(k: Kernel, ev: Event): Kernel
    requires -1 <= k.current < |k.tasks|
    requires ev.Syscall? ==> k.current >= 0 && ev.esp + FRAME_SIZE <= |ev.mem|
  {
    if ev.Timer? then Entered(k, ev)
    else if Load(ev.mem, ev.esp + EAX) == EXIT_INT then KillCurrent(Entered(k, ev))
    else WaitTask(Entered(k, ev), Load(ev.mem, ev.esp + EBX))
  }

  lemma AtScheduleIs(k: Kernel, ev: Event)
    requires Inv(k) && Enabled(k, ev) && Schedules(k, ev)
    ensures var a := AtSchedule(k, ev);
            && Core(a) && FrameOk(a, ev.esp) && Next(k, ev) == Schedule(a, ev.esp)
            && a.mem == ev.mem && a.current == k.current && |a.tasks| == |k.tasks|
            && (forall j :: 0 <= j < |k.tasks| && j != k.current ==> a.tasks[j] == k.tasks[j])
            && (k.current >= 0 ==>
                  && a.tasks[k.current].stack == k.tasks[k.current].stack
                  && a.tasks[k.current].cpustate == k.tasks[k.current].cpustate
                  && a.tasks[k.current].pcb.state in {RUNNING, WAITING, TERMINATED})
  {
    AtScheduleCore(k, ev);
    AtScheduleShape(k, ev);
    assert k.current >= 0 ==> k.tasks[k.current].pcb.state == RUNNING;
  }

  lemma AtScheduleCore(k: Kernel, ev: Event)
    requires Inv(k) && Enabled(k, ev) && Schedules(k, ev)
    ensures Core(AtSchedule(k, ev)) && FrameOk(AtSchedule(k, ev), ev.esp)
  {
    EnteredInv(k, ev);
    if ev.Timer? {}
    else if IsCall(k, ev, EXIT_INT) { KillKeeps(Entered(k, ev)); }
    else { WaitKeeps(Entered(k, ev), Load(ev.mem, ev.esp + EBX)); }
  }

  lemma AtScheduleShape(k: Kernel, ev: Event)
    requires Enabled(k, ev) && Schedules(k, ev)
    requires Sane(AtSchedule(k, ev)) && FrameOk(AtSchedule(k, ev), ev.esp)
    ensures var a := AtSchedule(k, ev);
            && Next(k, ev) == Schedule(a, ev.esp)
            && a.mem == ev.mem && a.current == k.current && |a.tasks| == |k.tasks|
            && (forall j :: 0 <= j < |k.tasks| && j != k.current ==> a.tasks[j] == k.tasks[j])
            && (k.current >= 0 ==>
                  && a.tasks[k.current].stack == k.tasks[k.current].stack
                  && a.tasks[k.current].cpustate == k.tasks[k.current].cpustate
                  && a.tasks[k.current].pcb.state in {k.tasks[k.current].pcb.state, WAITING, TERMINATED})
  {
  }

  // ----- other entries leave the table alone, but for a new task at its end

  /** No byte outside the current task's stack and the stack a fork may have filled. */
  ghost predicate OnlyOwnMemory(k: Kernel, ev: Event, k': Kernel)
    requires ev.Syscall? && 0 <= k.current < |k.tasks|
  {
    && |k'.mem| == |ev.mem|
    && forall a :: 0 <= a < |ev.mem| && k'.mem[a] != ev.mem[a] ==>
         || k.tasks[k.current].stack <= a < k.tasks[k.current].stack + STACK_SIZE
         || (|k'.tasks| > |k.tasks| && ev.stack <= a < ev.stack + STACK_SIZE)
  }

  lemma OtherEntries(k: Kernel, ev: Event, k': Kernel)
    requires Inv(k) && Step(k, ev, k') && !Schedules(k, ev)
    ensures ev.Syscall? && k.current >= 0 && k'.current == k.current && Next(k, ev).frame == ev.esp
    ensures |k.tasks| <= |k'.tasks| <= |k.tasks| + 1 && k'.tasks[..|k.tasks|] == k.tasks
    ensures |k'.tasks| > |k.tasks| <==> IsCall(k, ev, FORK_INT)
    ensures OnlyOwnMemory(k, ev, k')
  {
    var e := Entered(k, ev);
    if IsCall(k, ev, FORK_INT) {
      ForkTable(e, ev.esp, ev.stack, ev.junk);
      ForkMemory(e, ev.esp, ev.stack, ev.junk);
    }
  }

  lemma ForkMemory(k: Kernel, esp: nat, stack: nat, junk: PCB)
    requires Sane(k) && 0 <= k.current && |k.tasks| < MAX_TASKS
    requires InStack(k.tasks[k.current].stack, esp) && FreshStack(k, stack)
    ensures var m := Fork(k, esp, stack, junk).mem;
            && |m| == |k.mem|
            && forall a :: 0 <= a < |m| && m[a] != k.mem[a] ==>
                 esp <= a < esp + FRAME_SIZE || stack <= a < stack + STACK_SIZE
  {
  }

  // ----- TERMINATED is absorbing

  lemma TerminatedStays(k: Kernel, ev: Event, k': Kernel, t: nat)
    requires Inv(k) && Step(k, ev, k') && t < |k.tasks| && k.tasks[t].pcb.state == TERMINATED
    ensures t < |k'.tasks| && k'.tasks[t].pcb.state == TERMINATED
  {
    if Schedules(k, ev) {
      AtScheduleIs(k, ev);
      ScheduleEffect(AtSchedule(k, ev), ev.esp);
    } else {
      OtherEntries(k, ev, k');
      assert k'.tasks[t] == k.tasks[t];
    }
  }

  lemma {:induction false} StaysTerminated(ss: seq<Kernel>, evs: seq<Event>, i: nat, j: nat, t: nat)
    requires Run(ss, evs) && i <= j < |ss|
    requires t < |ss[i].tasks| && ss[i].tasks[t].pcb.state == TERMINATED
    ensures t < |ss[j].tasks| && ss[j].tasks[t].pcb.state == TERMINATED
  {
    if i < j {
      StaysTerminated(ss, evs, i, j - 1, t);
      RunKeeps(ss, evs, j - 1);
      assert StepAt(ss, evs, j - 1);
      TerminatedStays(ss[j - 1], evs[j - 1], ss[j], t);
    }
  }

  /** A terminated task stays terminated for ever, and never runs again. */
  lemma TerminatedForEver(ss: seq<Kernel>, evs: seq<Event>, i: nat, j: nat, t: nat)
    requires Run(ss, evs) && i <= j < |ss|
    requires t < |ss[i].tasks| && ss[i].tasks[t].pcb.state == TERMINATED
    ensures t < |ss[j].tasks| && ss[j].tasks[t].pcb.state == TERMINATED && ss[j].current != t
  {
    StaysTerminated(ss, evs, i, j, t);
    RunKeeps(ss, evs, j);
  }

  // ----- a task that does not have the CPU

  /** Task t is off the CPU with its registers saved at f and its stack as in m. */
  ghost predicate Parked(k: Kernel, t: nat, f: nat, m: Memory) {
    t < |k.tasks| && t != k.current && k.tasks[t].cpustate == f && SameStack(m, k.mem, k.tasks[t].stack)
  }

  /** Task t has just been given the CPU at frame f, its stack as in m but for ecx after a wake-up,
      and then only because its target has terminated. */
  ghost predicate Regained(k: Kernel, t: nat, f: nat, m: Memory, was: PCB) {
    && t < |k.tasks| && t == k.current && k.tasks[t].cpustate == f
    && match was.state
       case READY => SameStack(m, k.mem, k.tasks[t].stack)
       case WAITING => SameStackButEcx(m, k.mem, k.tasks[t].stack, f) && HasExited(k.tasks, was.waitpid)
       case _ => false
  }

  /** Scheduling brings no terminated task back. */
  lemma ExitedStays(a: Kernel, esp: nat, pid: Word)
    requires Core(a) && FrameOk(a, esp) && Schedule(a, esp).Returns? && HasExited(a.tasks, pid)
    ensures HasExited(Schedule(a, esp).kernel.tasks, pid)
  {
    ScheduleEffect(a, esp);
    var i :| 0 <= i < |a.tasks| && a.tasks[i].pcb.pid == pid && a.tasks[i].pcb.state == TERMINATED;
    var ts := Schedule(a, esp).kernel.tasks;
    assert ts[i].pcb.pid == pid && ts[i].pcb.state == TERMINATED;
  }

  /** The scheduler either leaves an off-CPU task exactly as it is, or resumes it exactly where it stopped. */
  lemma ScheduleParks(a: Kernel, esp: nat, t: nat, f: nat, m: Memory)
    requires Core(a) && FrameOk(a, esp) && Schedule(a, esp).Returns?
    requires t < |a.tasks| && SameStack(m, a.mem, a.tasks[t].stack)
    requires f == if t == a.current then esp else a.tasks[t].cpustate
    ensures var Returns(k', f') := Schedule(a, esp);
            && k'.tasks[t].stack == a.tasks[t].stack
            && (t != k'.current ==> Parked(k', t, f, m))
            && (t == k'.current ==> f' == f && Regained(k', t, f, m, a.tasks[t].pcb))
  {
    ScheduleEffect(a, esp);
    if a.tasks[Schedule(a, esp).kernel.current].pcb.state == WAITING { WakeParks(a, esp, t, f, m); }
  }

  /** The same when a waiter is woken, which writes into that waiter's frame. */
  lemma WakeParks(a: Kernel, esp: nat, t: nat, f: nat, m: Memory)
    requires Core(a) && FrameOk(a, esp) && Schedule(a, esp).Returns?
    requires a.tasks[Schedule(a, esp).kernel.current].pcb.state == WAITING
    requires t < |a.tasks| && SameStack(m, a.mem, a.tasks[t].stack)
    requires f == if t == a.current then esp else a.tasks[t].cpustate
    ensures var Returns(k', f') := Schedule(a, esp);
            && (t != k'.current ==> Parked(k', t, f, m))
            && (t == k'.current ==> f' == f && Regained(k', t, f, m, a.tasks[t].pcb))
  {
    ScheduleEffect(a, esp);
    ScheduleKeeps(a, esp);
    var Returns(k', f') := Schedule(a, esp);
    var n := k'.current;
    ExitedStays(a, esp, a.tasks[n].pcb.waitpid);
    assert InStack(k'.tasks[n].stack, f');
    if t != n { StacksDisjoint(k', t, n); }
  }

  lemma StacksDisjoint(k: Kernel, i: nat, j: nat)
    requires Core(k) && i < |k.tasks| && j < |k.tasks| && i != j
    ensures Apart(k.tasks[i].stack, k.tasks[j].stack)
  {
  }

  /** The kernel itself never disturbs a task that is off the CPU: an entry leaves its table entry and its
      stack as it finds them, until it resumes that task at its own frame. */
  lemma OffCpuStep(k: Kernel, ev: Event, k': Kernel, t: nat)
    requires Inv(k) && Step(k, ev, k') && t < |k.tasks| && t != k.current
    ensures t < |k'.tasks| && k'.tasks[t].stack == k.tasks[t].stack
    ensures t != k'.current ==> Parked(k', t, k.tasks[t].cpustate, ev.mem) && k'.tasks[t] == k.tasks[t]
    ensures t == k'.current ==>
              Next(k, ev).frame == k.tasks[t].cpustate && Regained(k', t, k.tasks[t].cpustate, ev.mem, k.tasks[t].pcb)
  {
    if Schedules(k, ev) {
      AtScheduleIs(k, ev);
      ScheduleParks(AtSchedule(k, ev), ev.esp, t, k.tasks[t].cpustate, ev.mem);
      ScheduleEffect(AtSchedule(k, ev), ev.esp);
    } else {
      OtherEntries(k, ev, k');
      assert k'.tasks[t] == k.tasks[t];
      StacksDisjoint(k, t, k.current);
      if |k'.tasks| > |k.tasks| { assert Apart(Entered(k, ev).tasks[t].stack, ev.stack); }
    }
  }

  lemma ParkedFrom(k: Kernel, t: nat, f: nat, m: Memory, m': Memory)
    requires Parked(k, t, f, m') && SameStack(m, m', k.tasks[t].stack)
    ensures Parked(k, t, f, m)
  {
  }

  lemma RegainedFrom(k: Kernel, t: nat, f: nat, m: Memory, m': Memory, was: PCB)
    requires Regained(k, t, f, m', was) && SameStack(m, m', k.tasks[t].stack)
    ensures Regained(k, t, f, m, was)
  {
  }

  /** So a task whose stack user code leaves alone stays parked as it was, until it is resumed. */
  lemma ParkedStep(k: Kernel, ev: Event, k': Kernel, t: nat, f: nat, m: Memory)
    requires Inv(k) && Step(k, ev, k') && Parked(k, t, f, m) && SameStack(k.mem, ev.mem, k.tasks[t].stack)
    ensures t != k'.current ==> Parked(k', t, f, m) && k'.tasks[t].pcb == k.tasks[t].pcb
    ensures t == k'.current ==> Next(k, ev).frame == f && Regained(k', t, f, m, k.tasks[t].pcb)
  {
    OffCpuStep(k, ev, k', t);
    if t != k'.current { ParkedFrom(k', t, f, m, ev.mem); }
    else { RegainedFrom(k', t, f, m, ev.mem, k.tasks[t].pcb); }
  }

  /** The task that had the CPU: either it keeps it, or it is parked exactly as user code left it. */
  lemma LeavingStep(k: Kernel, ev: Event, k': Kernel)
    requires Inv(k) && Step(k, ev, k') && k.current >= 0
    ensures k'.current != k.current ==>
              && Schedules(k, ev) && Parked(k', k.current, ev.esp, ev.mem)
              && k'.tasks[k.current].pcb == var pcb := AtSchedule(k, ev).tasks[k.current].pcb;
                                            if pcb.state == RUNNING then pcb.(state := READY) else pcb
    ensures k'.current == k.current && Schedules(k, ev) ==>
              && Next(k, ev).frame == ev.esp
              && Regained(k', k.current, ev.esp, ev.mem, AtSchedule(k, ev).tasks[k.current].pcb)
  {
    if Schedules(k, ev) {
      AtScheduleIs(k, ev);
      ScheduleParks(AtSchedule(k, ev), ev.esp, k.current, ev.esp, ev.mem);
      ScheduleEffect(AtSchedule(k, ev), ev.esp);
    } else {
      OtherEntries(k, ev, k');
    }
  }
}
