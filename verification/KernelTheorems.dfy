/** Properties of whole runs: contexts survive, waitpid tells the truth, and exactly which entries never
    come back. */
module KernelTheorems {
  import opened Words
  import opened Machine
  import opened ProcessTables
  import opened KernelInvariant
  import opened Scheduling
  import opened KernelRuns

  // ----- context integrity

  /** Task t is off the CPU at every state from a up to, not including, j. */
  ghost predicate OffCpu(ss: seq<Kernel>, a: nat, j: nat, t: nat)
    requires j <= |ss|
  {
    forall x :: a <= x < j ==> ss[x].current != t
  }

  /** User code between entry x - 1 and entry x leaves the stack of task t alone. */
  ghost predicate LeftAloneAt(ss: seq<Kernel>, evs: seq<Event>, x: nat, t: nat)
    requires x < |evs| <= |ss|
  {
    t < |ss[x].tasks| && SameStack(ss[x].mem, evs[x].mem, ss[x].tasks[t].stack)
  }

  /** Nobody writes into the stack of task t from state a up to entry j - 1. */
  ghost predicate LeftAlone(ss: seq<Kernel>, evs: seq<Event>, a: nat, j: nat, t: nat)
    requires j <= |evs| <= |ss|
  {
    forall x :: a <= x < j ==> LeftAloneAt(ss, evs, x, t)
  }

  lemma OffCpuStepAt(ss: seq<Kernel>, evs: seq<Event>, i: nat, t: nat)
    requires Run(ss, evs) && i < |evs| && t < |ss[i].tasks| && ss[i].current != t && ss[i + 1].current != t
    ensures t < |ss[i + 1].tasks| && ss[i + 1].tasks[t] == ss[i].tasks[t]
  {
    RunKeeps(ss, evs, i);
    assert StepAt(ss, evs, i);
    OffCpuStep(ss[i], evs[i], ss[i + 1], t);
  }

  /** Whatever is written where, a task that is off the CPU keeps its place, saved frame and control block. */
  lemma {:induction false} StaysOff(ss: seq<Kernel>, evs: seq<Event>, a: nat, j: nat, t: nat)
    requires Run(ss, evs) && a <= j < |ss| && t < |ss[a].tasks| && OffCpu(ss, a, j + 1, t)
    ensures t < |ss[j].tasks| && ss[j].tasks[t] == ss[a].tasks[t]
  {
    if a < j {
      StaysOff(ss, evs, a, j - 1, t);
      OffCpuStepAt(ss, evs, j - 1, t);
    }
  }

  lemma ParkedStepAt(ss: seq<Kernel>, evs: seq<Event>, i: nat, t: nat, f: nat, m: Memory)
    requires Run(ss, evs) && i < |evs| && Parked(ss[i], t, f, m) && ss[i + 1].current != t && LeftAloneAt(ss, evs, i, t)
    ensures Parked(ss[i + 1], t, f, m)
  {
    RunKeeps(ss, evs, i);
    assert StepAt(ss, evs, i);
    ParkedStep(ss[i], evs[i], ss[i + 1], t, f, m);
  }

  /** And the stack it was parked with, if nobody writes there. */
  lemma {:induction false} StaysParked(ss: seq<Kernel>, evs: seq<Event>, a: nat, j: nat, t: nat, f: nat, m: Memory)
    requires Run(ss, evs) && a <= j < |ss| && OffCpu(ss, a, j + 1, t) && Parked(ss[a], t, f, m)
    requires LeftAlone(ss, evs, a, j, t)
    ensures Parked(ss[j], t, f, m)
  {
    if a < j {
      StaysParked(ss, evs, a, j - 1, t, f, m);
      assert LeftAloneAt(ss, evs, j - 1, t);
      ParkedStepAt(ss, evs, j - 1, t, f, m);
    }
  }

  /** However many entries come in between, a task is resumed at its own frame, and the entry that resumes
      it leaves its stack as it finds it, but for ecx after a wake-up. */
  lemma ResumesAtItsFrame(ss: seq<Kernel>, evs: seq<Event>, a: nat, j: nat, t: nat)
    requires Run(ss, evs) && a < j < |ss| && t < |ss[a].tasks| && OffCpu(ss, a, j, t) && ss[j].current == t
    ensures Resumed(ss, evs, j - 1) == ss[a].tasks[t].cpustate
    ensures Regained(ss[j], t, ss[a].tasks[t].cpustate, evs[j - 1].mem, ss[a].tasks[t].pcb)
  {
    StaysOff(ss, evs, a, j - 1, t);
    RunKeeps(ss, evs, j - 1);
    assert StepAt(ss, evs, j - 1);
    OffCpuStep(ss[j - 1], evs[j - 1], ss[j], t);
  }

  /** If nobody writes into its stack in the meantime, that is the stack it was parked with. */
  lemma ResumesWhereParked(ss: seq<Kernel>, evs: seq<Event>, a: nat, j: nat, t: nat, f: nat, m: Memory)
    requires Run(ss, evs) && a < j < |ss| && Parked(ss[a], t, f, m)
    requires OffCpu(ss, a, j, t) && ss[j].current == t && LeftAlone(ss, evs, a, j, t)
    ensures Resumed(ss, evs, j - 1) == f && Regained(ss[j], t, f, m, ss[a].tasks[t].pcb)
  {
    StaysOff(ss, evs, a, j - 1, t);
    StaysParked(ss, evs, a, j - 1, t, f, m);
    RunKeeps(ss, evs, j - 1);
    assert StepAt(ss, evs, j - 1) && LeftAloneAt(ss, evs, j - 1, t);
    ParkedStep(ss[j - 1], evs[j - 1], ss[j], t, f, m);
  }

  /** The stack at base is as in m, but for a 1 in the ecx of the frame at f if the task was waiting. */
  ghost predicate ResumesWith(m: Memory, m': Memory, base: nat, f: nat, waited: bool) {
    if waited then SameStackButEcx(m, m', base, f) else SameStack(m, m', base)
  }

  /** A task that loses the CPU at entry i and next gets it back in state j resumes at the very frame entry
      i saved, with its stack exactly as user code left it by the entry that resumes it, but for a 1 in
      ecx if it had called waitpid. If nobody wrote there meanwhile, it is the stack it was left with. */
  lemma ContextIntegrity(ss: seq<Kernel>, evs: seq<Event>, i: nat, j: nat)
    requires Run(ss, evs) && i + 1 < j < |ss| && ss[i].current >= 0
    requires OffCpu(ss, i + 1, j, ss[i].current) && ss[j].current == ss[i].current
    ensures ss[i].current < |ss[i].tasks| && ss[i].current < |ss[i + 1].tasks|
    ensures Resumed(ss, evs, j - 1) == evs[i].esp
    ensures var t := ss[i].current;
            var base, waited := ss[i].tasks[t].stack, ss[i + 1].tasks[t].pcb.state == WAITING;
            && ResumesWith(evs[j - 1].mem, ss[j].mem, base, evs[i].esp, waited)
            && (LeftAlone(ss, evs, i + 1, j, t) ==> ResumesWith(evs[i].mem, ss[j].mem, base, evs[i].esp, waited))
  {
    var t := ss[i].current;
    assert ss[i + 1].current != t;
    LosesCpu(ss, evs, i);
    ParkedResumes(ss, evs, i + 1, j, t, evs[i].esp, evs[i].mem);
  }

  lemma LosesCpu(ss: seq<Kernel>, evs: seq<Event>, i: nat)
    requires Run(ss, evs) && i < |evs| && ss[i].current >= 0 && ss[i + 1].current != ss[i].current
    ensures var t := ss[i].current;
            && t < |ss[i].tasks| && Parked(ss[i + 1], t, evs[i].esp, evs[i].mem)
            && ss[i + 1].tasks[t].stack == ss[i].tasks[t].stack
  {
    RunKeeps(ss, evs, i);
    assert StepAt(ss, evs, i);
    LeavingStep(ss[i], evs[i], ss[i + 1]);
    TasksKeepStacks(ss, evs, i, i + 1);
  }

  /** The same from any state in which the task is parked. */
  lemma ParkedResumes(ss: seq<Kernel>, evs: seq<Event>, a: nat, j: nat, t: nat, f: nat, m: Memory)
    requires Run(ss, evs) && a < j < |ss| && Parked(ss[a], t, f, m) && OffCpu(ss, a, j, t) && ss[j].current == t
    ensures Resumed(ss, evs, j - 1) == f
    ensures var base, waited := ss[a].tasks[t].stack, ss[a].tasks[t].pcb.state == WAITING;
            && ResumesWith(evs[j - 1].mem, ss[j].mem, base, f, waited)
            && (LeftAlone(ss, evs, a, j, t) ==> ResumesWith(m, ss[j].mem, base, f, waited))
  {
    TasksKeepStacks(ss, evs, a, j);
    ResumesAtItsFrame(ss, evs, a, j, t);
    if LeftAlone(ss, evs, a, j, t) { ResumesWhereParked(ss, evs, a, j, t, f, m); }
  }

  /** Tasks never move: a slot keeps its stack and its pids for ever. */
  lemma {:induction false} TasksKeepStacks(ss: seq<Kernel>, evs: seq<Event>, i: nat, j: nat)
    requires Run(ss, evs) && i <= j < |ss|
    ensures |ss[i].tasks| <= |ss[j].tasks|
    ensures forall t :: 0 <= t < |ss[i].tasks| ==>
              && ss[j].tasks[t].stack == ss[i].tasks[t].stack
              && ss[j].tasks[t].pcb.pid == ss[i].tasks[t].pcb.pid && ss[j].tasks[t].pcb.ppid == ss[i].tasks[t].pcb.ppid
  {
    if i < j {
      TasksKeepStacks(ss, evs, i, j - 1);
      RunKeeps(ss, evs, j - 1);
      assert StepAt(ss, evs, j - 1);
      StepKeepsStacks(ss[j - 1], evs[j - 1], ss[j]);
    }
  }

  lemma StepKeepsStacks(k: Kernel, ev: Event, k': Kernel)
    requires Inv(k) && Step(k, ev, k')
    ensures |k.tasks| <= |k'.tasks|
    ensures forall t :: 0 <= t < |k.tasks| ==>
              && k'.tasks[t].stack == k.tasks[t].stack
              && k'.tasks[t].pcb.pid == k.tasks[t].pcb.pid && k'.tasks[t].pcb.ppid == k.tasks[t].pcb.ppid
  {
    if Schedules(k, ev) {
      AtScheduleIs(k, ev);
      ScheduleSamePids(k, ev);
      ScheduleKeepsStacks(AtSchedule(k, ev), ev.esp);
    } else {
      OtherEntries(k, ev, k');
      PrefixKeeps(k.tasks, k'.tasks);
    }
  }

  lemma ScheduleKeepsStacks(a: Kernel, esp: nat)
    requires Core(a) && FrameOk(a, esp) && Schedule(a, esp).Returns?
    ensures var ts := Schedule(a, esp).kernel.tasks;
            |ts| == |a.tasks| && forall t :: 0 <= t < |ts| ==>
              && ts[t].stack == a.tasks[t].stack
              && ts[t].pcb.pid == a.tasks[t].pcb.pid && ts[t].pcb.ppid == a.tasks[t].pcb.ppid
  {
    ScheduleEffect(a, esp);
  }

  lemma PrefixKeeps(ts: seq<Task>, us: seq<Task>)
    requires |ts| <= |us| && us[..|ts|] == ts
    ensures forall t :: 0 <= t < |ts| ==> us[t] == ts[t]
  {
  }

  lemma ScheduleSamePids(k: Kernel, ev: Event)
    requires Inv(k) && Enabled(k, ev) && Schedules(k, ev)
    ensures var a := AtSchedule(k, ev);
            |a.tasks| == |k.tasks| && forall t :: 0 <= t < |k.tasks| ==>
              a.tasks[t].pcb.pid == k.tasks[t].pcb.pid && a.tasks[t].pcb.ppid == k.tasks[t].pcb.ppid
  {
  }

  // ----- waitpid

  /** Until it gets the CPU back, a caller of waitpid stays WAITING for the pid it named. */
  lemma WaitingStaysWaiting(ss: seq<Kernel>, evs: seq<Event>, i: nat, x: nat, pid: Word)
    requires Run(ss, evs) && i < x < |ss|
    requires StepAt(ss, evs, i) && IsWait(ss[i], evs[i], pid)
    requires OffCpu(ss, i + 1, x + 1, ss[i].current)
    ensures var t := ss[i].current;
            && t < |ss[x].tasks| && ss[x].tasks[t].cpustate == evs[i].esp
            && ss[x].tasks[t].pcb.state == WAITING && ss[x].tasks[t].pcb.waitpid == pid
  {
    var t := ss[i].current;
    assert ss[i + 1].current != t;
    WaitLeaves(ss, evs, i, pid);
    StaysOff(ss, evs, i + 1, x, t);
  }

  /** The entry by which a caller of waitpid loses the CPU. */
  lemma WaitLeaves(ss: seq<Kernel>, evs: seq<Event>, i: nat, pid: Word)
    requires Run(ss, evs) && i < |evs| && StepAt(ss, evs, i) && IsWait(ss[i], evs[i], pid)
    requires ss[i + 1].current != ss[i].current
    ensures var t := ss[i].current;
            && Parked(ss[i + 1], t, evs[i].esp, evs[i].mem)
            && ss[i + 1].tasks[t].pcb.state == WAITING && ss[i + 1].tasks[t].pcb.waitpid == pid
  {
    RunKeeps(ss, evs, i);
    LeavingStep(ss[i], evs[i], ss[i + 1]);
    WaitMarks(ss[i], evs[i], pid);
  }

  /** A call of waitpid that is answered at once. */
  lemma WaitComesBack(k: Kernel, ev: Event, k': Kernel, pid: Word)
    requires Inv(k) && Step(k, ev, k') && IsWait(k, ev, pid) && k'.current == k.current
    ensures 0 <= k.current < |k.tasks| && Next(k, ev).frame == ev.esp && HasExited(k'.tasks, pid)
    ensures SameStackButEcx(ev.mem, k'.mem, k.tasks[k.current].stack, ev.esp)
  {
    WaitMarks(k, ev, pid);
    LeavingStep(k, ev, k');
    StepKeepsStacks(k, ev, k');
  }

  /** A parked waiter that gets the CPU back. */
  lemma WaiterResumes(ss: seq<Kernel>, evs: seq<Event>, a: nat, j: nat, t: nat, f: nat, m: Memory)
    requires Run(ss, evs) && a < j < |ss| && Parked(ss[a], t, f, m) && ss[a].tasks[t].pcb.state == WAITING
    requires OffCpu(ss, a, j, t) && ss[j].current == t
    ensures Resumed(ss, evs, j - 1) == f && HasExited(ss[j].tasks, ss[a].tasks[t].pcb.waitpid)
    ensures SameStackButEcx(evs[j - 1].mem, ss[j].mem, ss[a].tasks[t].stack, f)
    ensures LeftAlone(ss, evs, a, j, t) ==> SameStackButEcx(m, ss[j].mem, ss[a].tasks[t].stack, f)
  {
    TasksKeepStacks(ss, evs, a, j);
    ResumesAtItsFrame(ss, evs, a, j, t);
    if LeftAlone(ss, evs, a, j, t) { ResumesWhereParked(ss, evs, a, j, t, f, m); }
  }

  lemma WaitComesBackAtOnce(ss: seq<Kernel>, evs: seq<Event>, i: nat, pid: Word)
    requires Run(ss, evs) && i < |evs| && StepAt(ss, evs, i) && IsWait(ss[i], evs[i], pid)
    requires ss[i + 1].current == ss[i].current
    ensures 0 <= ss[i].current < |ss[i].tasks|
    ensures Resumed(ss, evs, i) == evs[i].esp && HasExited(ss[i + 1].tasks, pid)
    ensures SameStackButEcx(evs[i].mem, ss[i + 1].mem, ss[i].tasks[ss[i].current].stack, evs[i].esp)
  {
    RunKeeps(ss, evs, i);
    WaitComesBack(ss[i], evs[i], ss[i + 1], pid);
  }

  /** A call of waitpid that is answered after others have run. */
  lemma WaitComesBackLater(ss: seq<Kernel>, evs: seq<Event>, i: nat, j: nat, pid: Word)
    requires Run(ss, evs) && i + 1 < j < |ss| && StepAt(ss, evs, i) && IsWait(ss[i], evs[i], pid)
    requires 0 <= ss[i].current < |ss[i].tasks|
    requires OffCpu(ss, i + 1, j, ss[i].current) && ss[j].current == ss[i].current
    ensures Resumed(ss, evs, j - 1) == evs[i].esp && HasExited(ss[j].tasks, pid)
    ensures var t, base := ss[i].current, ss[i].tasks[ss[i].current].stack;
            && SameStackButEcx(evs[j - 1].mem, ss[j].mem, base, evs[i].esp)
            && (LeftAlone(ss, evs, i + 1, j, t) ==> SameStackButEcx(evs[i].mem, ss[j].mem, base, evs[i].esp))
  {
    assert ss[i + 1].current != ss[i].current;
    LosesCpu(ss, evs, i);
    WaitLeaves(ss, evs, i, pid);
    WaiterResumes(ss, evs, i + 1, j, ss[i].current, evs[i].esp, evs[i].mem);
  }

  /** A caller of waitpid that gets the CPU back does so at the frame it called from, with its target
      terminated and ecx 1; its stack is otherwise as user code left it by then, which is as it was at the
      call if nobody wrote there. */
  lemma WaitpidIsSound(ss: seq<Kernel>, evs: seq<Event>, i: nat, j: nat, pid: Word)
    requires Run(ss, evs) && i < j < |ss|
    requires StepAt(ss, evs, i) && IsWait(ss[i], evs[i], pid)
    requires OffCpu(ss, i + 1, j, ss[i].current) && ss[j].current == ss[i].current
    ensures Resumed(ss, evs, j - 1) == evs[i].esp && HasExited(ss[j].tasks, pid)
    ensures var t, base := ss[i].current, ss[i].tasks[ss[i].current].stack;
            && SameStackButEcx(evs[j - 1].mem, ss[j].mem, base, evs[i].esp)
            && (LeftAlone(ss, evs, i + 1, j, t) ==> SameStackButEcx(evs[i].mem, ss[j].mem, base, evs[i].esp))
  {
    if j == i + 1 { WaitComesBackAtOnce(ss, evs, i, pid); } else { WaitComesBackLater(ss, evs, i, j, pid); }
  }

  lemma WaitMarks(k: Kernel, ev: Event, pid: Word)
    requires Inv(k) && Enabled(k, ev) && IsWait(k, ev, pid)
    ensures Schedules(k, ev)
    ensures 1 <= pid <= |k.tasks|
    ensures var pcb := AtSchedule(k, ev).tasks[k.current].pcb;
            pcb == k.tasks[k.current].pcb.(state := WAITING, waitpid := pid, waitstate := k.tasks[pid - 1].pcb.state)
  {
    CanWaitWhen(Entered(k, ev), pid);
  }

  /** waitpid answers -1 at once, and changes nothing else, exactly when the pid is the caller's own
      or names no task. */
  lemma WaitpidFailsWhen(k: Kernel, ev: Event)
    requires Inv(k) && Enabled(k, ev) && IsCall(k, ev, 7)
    ensures var pid := Load(ev.mem, ev.esp + 4);
            if pid == k.tasks[k.current].pcb.pid || pid == 0 || pid > |k.tasks|
            then Next(k, ev) == Returns(k.(mem := Store(ev.mem, ev.esp + 8, 0xFFFF_FFFF)), ev.esp)
            else IsWait(k, ev, pid)
  {
    CanWaitWhen(Entered(k, ev), Load(ev.mem, ev.esp + EBX));
    if !CanWait(Entered(k, ev), Load(ev.mem, ev.esp + EBX)) { FailedWait(k, ev); }
  }

  lemma FailedWait(k: Kernel, ev: Event)
    requires Enabled(k, ev) && IsCall(k, ev, 7) && !CanWait(Entered(k, ev), Load(ev.mem, ev.esp + EBX))
    ensures Next(k, ev) == Returns(k.(mem := Store(ev.mem, ev.esp + 8, 0xFFFF_FFFF)), ev.esp)
  {
  }

  /** Whatever brought the kernel to its scheduler, if the last waiter's target has terminated by then, even
      by that very exit, that waiter is resumed where it called from. */
  lemma LastWaiterIsWoken(k: Kernel, ev: Event, t: nat)
    requires Inv(k) && Enabled(k, ev) && Schedules(k, ev)
    requires var ts := AtSchedule(k, ev).tasks; t == LastWaiter(ts) && HasExited(ts, ts[t].pcb.waitpid)
    ensures var r := Next(k, ev);
            r.Returns? && r.kernel.current == t && r.frame == if t == k.current then ev.esp else k.tasks[t].cpustate
  {
    AtScheduleIs(k, ev);
    ReturnsWhen(AtSchedule(k, ev), ev.esp);
    ScheduleEffect(AtSchedule(k, ev), ev.esp);
  }

  /** Exactly when a WAITING task that is off the CPU gets it: its target has terminated and no higher
      task is waiting by the time the scheduler is reached. */
  lemma WaiterRunsWhen(k: Kernel, ev: Event, t: nat)
    requires Inv(k) && Enabled(k, ev) && t < |k.tasks| && t != k.current && k.tasks[t].pcb.state == WAITING
    ensures Next(k, ev).Returns? && Next(k, ev).kernel.current == t <==>
            && Schedules(k, ev)
            && var ts := AtSchedule(k, ev).tasks; t == LastWaiter(ts) && HasExited(ts, k.tasks[t].pcb.waitpid)
  {
    if Schedules(k, ev) {
      AtScheduleIs(k, ev);
      var a := AtSchedule(k, ev);
      assert a.tasks[t] == k.tasks[t];
      if Next(k, ev).Returns? { ScheduleEffect(a, ev.esp); }
      if t == LastWaiter(a.tasks) && HasExited(a.tasks, k.tasks[t].pcb.waitpid) { LastWaiterIsWoken(k, ev, t); }
    } else if Next(k, ev).Returns? {
      OtherEntries(k, ev, Next(k, ev).kernel);
    }
  }

  /** Over runs: from the call on, each entry gives the caller of waitpid the CPU exactly when it reaches
      the scheduler, the caller is the highest waiter there, and the pid it named has terminated. */
  lemma WaiterRunsExactlyWhen(ss: seq<Kernel>, evs: seq<Event>, i: nat, m: nat, ev: Event, pid: Word)
    requires Run(ss, evs) && i < m < |ss| && Enabled(ss[m], ev)
    requires StepAt(ss, evs, i) && IsWait(ss[i], evs[i], pid)
    requires OffCpu(ss, i + 1, m + 1, ss[i].current)
    ensures Next(ss[m], ev).Returns? && Next(ss[m], ev).kernel.current == ss[i].current <==>
            && Schedules(ss[m], ev)
            && var ts := AtSchedule(ss[m], ev).tasks; ss[i].current == LastWaiter(ts) && HasExited(ts, pid)
  {
    WaitingStaysWaiting(ss, evs, i, m, pid);
    RunKeeps(ss, evs, i);
    RunKeeps(ss, evs, m);
    WaiterRunsWhen(ss[m], ev, ss[i].current);
  }

  /** The scheduler looks at the highest waiter only: it passes over a lower one whose target has
      terminated, and never returns if the highest one's target is alive and nothing is READY. */
  lemma LowerWaiterIsPassedOver(k: Kernel, ev: Event, t: nat, h: nat)
    requires Inv(k) && Enabled(k, ev) && Schedules(k, ev) && t < h < |k.tasks|
    requires var ts := AtSchedule(k, ev).tasks;
             && ts[t].pcb.state == WAITING && HasExited(ts, ts[t].pcb.waitpid)
             && h == LastWaiter(ts) && !HasExited(ts, ts[h].pcb.waitpid)
    ensures Next(k, ev).Hangs? <==> !SomeReady(AtSchedule(k, ev).tasks)
    ensures Next(k, ev).Returns? ==> Next(k, ev).kernel.current !in {t, h}
  {
    AtScheduleIs(k, ev);
    ReturnsWhen(AtSchedule(k, ev), ev.esp);
    if Next(k, ev).Returns? { ScheduleEffect(AtSchedule(k, ev), ev.esp); }
  }

  lemma ExitStep(k: Kernel, ev: Event, k': Kernel)
    requires Inv(k) && Step(k, ev, k') && IsCall(k, ev, 1)
    ensures 0 <= k.current < |k.tasks| <= |k'.tasks|
    ensures k'.tasks[k.current].pcb == k.tasks[k.current].pcb.(state := TERMINATED)
  {
    LeavingStep(k, ev, k');
  }

  /** An exit is for ever: the caller is TERMINATED in every later state and never runs again. */
  lemma ExitIsFinal(ss: seq<Kernel>, evs: seq<Event>, i: nat, j: nat)
    requires Run(ss, evs) && i < j < |ss|
    requires StepAt(ss, evs, i) && IsCall(ss[i], evs[i], 1)
    ensures var t := ss[i].current;
            0 <= t < |ss[j].tasks| && ss[j].tasks[t].pcb.state == TERMINATED && ss[j].current != t
  {
    RunKeeps(ss, evs, i);
    ExitStep(ss[i], evs[i], ss[i + 1]);
    TerminatedForEver(ss, evs, i + 1, j, ss[i].current);
  }

  // ----- entries that never return

  /** The pid the highest waiter waits for once entry ev has reached the scheduler, 0 if nobody waits. */
  ghost function AwaitedPid(k: Kernel, ev: Event): Word
    requires Enabled(k, ev)
  {
    var w := LastWaiter(k.tasks);
    if w >= 0 && !(IsCall(k, ev, WAITPID_INT) && w < k.current) then k.tasks[w].pcb.waitpid
    else if IsCall(k, ev, WAITPID_INT) then Load(ev.mem, ev.esp + EBX)
    else 0
  }

  /** The task of this pid has terminated, or is the one that entry ev terminates. */
  ghost predicate GoneBy(k: Kernel, ev: Event, pid: Word)
    requires Enabled(k, ev)
  {
    HasExited(k.tasks, pid) || (IsCall(k, ev, EXIT_INT) && pid == k.tasks[k.current].pcb.pid)
  }

  /** In any run, the entries that never return are exactly those that reach the scheduler while nothing is
      READY and the task the highest waiter waits for, if anybody waits, is alive. */
  lemma HangsExactlyWhen(ss: seq<Kernel>, evs: seq<Event>, i: nat, ev: Event)
    requires Run(ss, evs) && i < |ss| && Enabled(ss[i], ev)
    ensures Next(ss[i], ev).Hangs? <==>
            Schedules(ss[i], ev) && !SomeReady(ss[i].tasks) && !GoneBy(ss[i], ev, AwaitedPid(ss[i], ev))
  {
    RunKeeps(ss, evs, i);
    EntryHangsWhen(ss[i], ev);
  }

  lemma EntryHangsWhen(k: Kernel, ev: Event)
    requires Inv(k) && Enabled(k, ev)
    ensures Next(k, ev).Hangs? <==> Schedules(k, ev) && !SomeReady(k.tasks) && !GoneBy(k, ev, AwaitedPid(k, ev))
  {
    EnteredInv(k, ev);
    HasExitedAt(k.tasks, 0);
    if ev.Timer? {
      ReturnsWhen(Entered(k, ev), ev.esp);
    } else if IsCall(k, ev, EXIT_INT) {
      ExitHangsWhen(Entered(k, ev), ev.esp);
    } else if IsCall(k, ev, WAITPID_INT) {
      WaitEntryHangsWhen(k, ev);
    }
  }

  lemma WaitEntryHangsWhen(k: Kernel, ev: Event)
    requires Inv(k) && Inv(Entered(k, ev)) && Enabled(k, ev) && IsCall(k, ev, WAITPID_INT)
    ensures Next(k, ev).Hangs? <==> Schedules(k, ev) && !SomeReady(k.tasks) && !GoneBy(k, ev, AwaitedPid(k, ev))
  {
    var pid, w := Load(ev.mem, ev.esp + EBX), LastWaiter(k.tasks);
    if CanWait(k, pid) {
      assert Next(k, ev) == Schedule(WaitTask(Entered(k, ev), pid), ev.esp) by { WaitKeeps(Entered(k, ev), pid); }
      WaitHangsWhen(Entered(k, ev), pid, ev.esp);
      assert w != k.current;
      assert AwaitedPid(k, ev) == if w > k.current then k.tasks[w].pcb.waitpid else pid;
      assert !IsCall(k, ev, EXIT_INT);
    }
  }

  /** Every waitpid of the run names a pid above the caller's. */
  ghost predicate WaitsDownwards(k: Kernel, ev: Event)
    requires Enabled(k, ev)
  {
    forall pid: Word :: IsWait(k, ev, pid) ==> pid > k.tasks[k.current].pcb.pid
  }

  ghost predicate DisciplinedAt(ss: seq<Kernel>, evs: seq<Event>, i: nat)
    requires |ss| == |evs| + 1 && i < |evs|
  {
    StepAt(ss, evs, i) && WaitsDownwards(ss[i], evs[i])
  }

  ghost predicate DisciplinedRun(ss: seq<Kernel>, evs: seq<Event>) {
    Run(ss, evs) && forall i :: 0 <= i < |evs| ==> DisciplinedAt(ss, evs, i)
  }

  lemma DisciplineStep(k: Kernel, ev: Event, k': Kernel)
    requires Inv(k) && Step(k, ev, k') && Disciplined(k.tasks) && WaitsDownwards(k, ev)
    ensures Disciplined(k'.tasks)
  {
    if Schedules(k, ev) {
      AtScheduleIs(k, ev);
      DisciplineAtSchedule(k, ev);
      DisciplineScheduled(AtSchedule(k, ev), ev.esp);
    } else {
      OtherEntries(k, ev, k');
      PrefixKeeps(k.tasks, k'.tasks);
      if |k'.tasks| > |k.tasks| { ForkTable(Entered(k, ev), ev.esp, ev.stack, ev.junk); }
    }
  }

  lemma DisciplineScheduled(a: Kernel, esp: nat)
    requires Core(a) && FrameOk(a, esp) && Schedule(a, esp).Returns? && Disciplined(a.tasks)
    ensures Disciplined(Schedule(a, esp).kernel.tasks)
  {
    ScheduleEffect(a, esp);
  }

  lemma DisciplineAtSchedule(k: Kernel, ev: Event)
    requires Inv(k) && Enabled(k, ev) && Schedules(k, ev) && Disciplined(k.tasks) && WaitsDownwards(k, ev)
    ensures Disciplined(AtSchedule(k, ev).tasks)
  {
    AtScheduleIs(k, ev);
    if IsCall(k, ev, WAITPID_INT) {
      var pid := Load(ev.mem, ev.esp + EBX);
      assert IsWait(k, ev, pid);
      WaitMarks(k, ev, pid);
    }
  }

  lemma {:induction false} DisciplineHolds(ss: seq<Kernel>, evs: seq<Event>, i: nat)
    requires DisciplinedRun(ss, evs) && i < |ss|
    ensures Disciplined(ss[i].tasks)
  {
    if i > 0 {
      DisciplineHolds(ss, evs, i - 1);
      RunKeeps(ss, evs, i - 1);
      assert DisciplinedAt(ss, evs, i - 1);
      DisciplineStep(ss[i - 1], evs[i - 1], ss[i]);
    }
  }

  /** Current is the only task able to run: nothing is READY and the last waiter, if any, waits for it. */
  ghost predicate OnlyCurrentCanRun(k: Kernel)
    requires 0 <= k.current < |k.tasks|
  {
    !SomeReady(k.tasks) && var w := LastWaiter(k.tasks); w >= 0 ==> k.tasks[w].pcb.waitpid == k.tasks[k.current].pcb.pid
  }

  ghost predicate AllOthersTerminated(k: Kernel) {
    forall j :: 0 <= j < |k.tasks| && j != k.current ==> k.tasks[j].pcb.state == TERMINATED
  }

  /** In a disciplined run that leaves two cases: a tick while only the current task can run, and the exit
      of the last task alive. No waitpid ever wedges. */
  lemma DisciplinedHangsWhen(ss: seq<Kernel>, evs: seq<Event>, i: nat, ev: Event)
    requires DisciplinedRun(ss, evs) && i < |ss| && Enabled(ss[i], ev) && WaitsDownwards(ss[i], ev)
    ensures var k := ss[i];
            Next(k, ev).Hangs? <==>
            && k.current >= 0
            && ((ev.Timer? && OnlyCurrentCanRun(k)) || (IsCall(k, ev, EXIT_INT) && AllOthersTerminated(k)))
  {
    HangsExactlyWhen(ss, evs, i, ev);
    RunKeeps(ss, evs, i);
    DisciplineHolds(ss, evs, i);
    if ss[i].current == -1 {
      assert SomeReady(ss[i].tasks);
    } else {
      DisciplinedGuard(ss[i], ev);
    }
  }

  /** What is left under the discipline of the condition under which an entry hangs. */
  lemma DisciplinedGuard(k: Kernel, ev: Event)
    requires Inv(k) && k.current >= 0 && Enabled(k, ev) && Disciplined(k.tasks) && WaitsDownwards(k, ev)
    ensures Schedules(k, ev) && !SomeReady(k.tasks) && !GoneBy(k, ev, AwaitedPid(k, ev)) <==>
            (ev.Timer? && OnlyCurrentCanRun(k)) || (IsCall(k, ev, EXIT_INT) && AllOthersTerminated(k))
  {
    HasExitedAt(k.tasks, 0);
    if ev.Timer? {
      DisciplinedNobody(k);
    } else if IsCall(k, ev, EXIT_INT) {
      OthersTerminated(k);
    } else if IsCall(k, ev, WAITPID_INT) {
      var pid := Load(ev.mem, ev.esp + EBX);
      if CanWait(k, pid) {
        assert IsWait(k, ev, pid);
        CanWaitWhen(k, pid);
        YoungerTargetRunsOrIsGone(k, pid);
      }
    }
  }

  /** The first tick starts the first task at its initial frame. The tick case above is reachable right
      after that: unless the task has forked, the second tick never returns. */
  lemma FirstTickStartsSecondHangs(k: Kernel, ev: Event, ev': Event)
    requires Boot(k) && Enabled(k, ev) && ev.Timer?
    ensures var r := Next(k, ev);
            r.Returns? && r.kernel.current == 0 && r.frame == k.tasks[0].cpustate && r.kernel.mem == ev.mem
    ensures var k' := Next(k, ev).kernel; Enabled(k', ev') && ev'.Timer? ==> Next(k', ev').Hangs?
  {
    var e := Entered(k, ev);
    EnteredInv(k, ev);
    assert SomeReady(e.tasks);
    ReturnsWhen(e, ev.esp);
    ScheduleKeeps(e, ev.esp);
    ScheduleEffect(e, ev.esp);
    var k' := Next(k, ev).kernel;
    if Enabled(k', ev') && ev'.Timer? {
      EnteredInv(k', ev');
      ReturnsWhen(Entered(k', ev'), ev'.esp);
      assert |k'.tasks| == 1 && k'.tasks[0].pcb.state == RUNNING;
    }
  }

  // ----- the calls that do nothing to the kernel

  /** A call whose number, in eax, is none of those of exit, fork, waitpid and execve leaves the kernel and
      every byte of memory alone, print, number 4, among them; the caller resumes where it was. */
  lemma OtherCallsDoNothing(k: Kernel, ev: Event)
    requires Enabled(k, ev) && ev.Syscall? && Load(ev.mem, ev.esp) !in {1, 2, 7, 11}
    ensures Next(k, ev) == Returns(Kernel(k.tasks, k.current, ev.mem), ev.esp)
  {
  }

  /** Over every run: such a caller resumes at once, with its stack and all else in memory as it left it. */
  lemma OtherCallsReturnAtOnce(ss: seq<Kernel>, evs: seq<Event>, i: nat)
    requires Run(ss, evs) && i < |evs| && evs[i].Syscall?
    ensures evs[i].esp + FRAME_SIZE <= |evs[i].mem|
    ensures Load(evs[i].mem, evs[i].esp) !in {1, 2, 7, 11} ==>
              && ss[i + 1] == Kernel(ss[i].tasks, ss[i].current, evs[i].mem) && Resumed(ss, evs, i) == evs[i].esp
  {
    assert StepAt(ss, evs, i);
    if Load(evs[i].mem, evs[i].esp) !in {1, 2, 7, 11} { OtherCallsDoNothing(ss[i], evs[i]); }
  }

  // ----- execve

  /** execve redirects the caller in place: it resumes at once, at the address that was in ebx, with both
      stack registers of its frame at the start of its stack; nothing else changes anywhere. */
  lemma ExecveRedirects(k: Kernel, ev: Event)
    requires Inv(k) && Enabled(k, ev) && IsCall(k, ev, 11)
    ensures var r := Next(k, ev); var f := ev.esp; var base := k.tasks[k.current].stack;
            && r.Returns? && r.frame == f && r.kernel.tasks == k.tasks && r.kernel.current == k.current
            && |r.kernel.mem| == |ev.mem|
            && Load(r.kernel.mem, f + 32) == Load(ev.mem, f + 4)
            && Load(r.kernel.mem, f + 24) == base && Load(r.kernel.mem, f + 44) == base
            && (forall a :: 0 <= a < |ev.mem| && r.kernel.mem[a] != ev.mem[a] ==>
                  f + 24 <= a < f + 28 || f + 32 <= a < f + 36 || f + 44 <= a < f + 48)
  {
    var f, base := ev.esp, k.tasks[k.current].stack;
    var m1 := Store(ev.mem, f + EBP, base);
    var m2 := Store(m1, f + ESP, Load(m1, f + EBP));
    var m3 := Store(m2, f + EIP, Load(m2, f + EBX));
    LoadSame(ev.mem, m1, f + EBX);
    LoadSame(m1, m2, f + EBX);
    LoadSame(m1, m2, f + EBP);
    LoadSame(m2, m3, f + EBP);
    LoadSame(m2, m3, f + ESP);
  }
}
