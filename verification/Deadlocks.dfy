/** Two runs from any boot state that wedge the kernel: two tasks waiting for each other, and a waiter whose
    target has terminated but behind a higher waiter whose target is alive. */
module Deadlocks {
  import opened Words
  import opened Machine
  import opened ProcessTables
  import opened KernelInvariant
  import opened Scheduling
  import opened KernelRuns
  import opened KernelTheorems

  // ----- single entries

  /** The current task, at the frame it was last saved at, makes the call eax with argument ebx. */
  ghost function Call(k: Kernel, eax: Word, ebx: Word, stack: nat, junk: PCB): Event
    requires Sane(k) && k.current >= 0
  {
    var f := k.tasks[k.current].cpustate;
    Syscall(Store(Store(k.mem, f + EAX, eax), f + EBX, ebx), f, stack, junk)
  }

  lemma CallIsEnabled(k: Kernel, eax: Word, ebx: Word, stack: nat, junk: PCB)
    requires Inv(k) && k.current >= 0
    requires eax == FORK_INT ==> |k.tasks| < MAX_TASKS && FreshStack(k, stack)
    ensures var ev := Call(k, eax, ebx, stack, junk);
            Enabled(k, ev) && IsCall(k, ev, eax) && Load(ev.mem, ev.esp + EBX) == ebx
  {
    var ev := Call(k, eax, ebx, stack, junk);
    var m := Store(k.mem, ev.esp + EAX, eax);
    LoadSame(m, Store(m, ev.esp + EBX, ebx), ev.esp + EAX);
    assert eax == FORK_INT ==> FreshStack(Entered(k, ev), stack);
  }

  /** A timer tick while the current task sits at the frame it was last saved at. */
  ghost function Tick(k: Kernel): Event
    requires Sane(k) && k.tasks != []
  {
    Timer(k.mem, k.tasks[Leaving(k)].cpustate)
  }

  /** Table k' is table k with one more task, READY, at the end. */
  ghost predicate Forked(k: Kernel, k': Kernel, stack: nat) {
    && |k'.tasks| == |k.tasks| + 1 && k'.current == k.current && |k'.mem| == |k.mem|
    && (forall j :: 0 <= j < |k.tasks| ==> k'.tasks[j] == k.tasks[j])
    && k'.tasks[|k.tasks|].pcb.state == READY && k'.tasks[|k.tasks|].stack == stack
  }

  lemma ForkStep(k: Kernel, stack: nat, junk: PCB) returns (ev: Event, k': Kernel)
    requires Inv(k) && k.current >= 0 && |k.tasks| < MAX_TASKS && FreshStack(k, stack)
    ensures Step(k, ev, k') && Inv(k') && Forked(k, k', stack)
  {
    ev := Call(k, FORK_INT, 0, stack, junk);
    CallIsEnabled(k, FORK_INT, 0, stack, junk);
    k' := Next(k, ev).kernel;
    StepKeeps(k, ev, k');
    ForkTable(Entered(k, ev), ev.esp, stack, junk);
  }

  /** Task n has the CPU; the task that had it is left as pcb says; the rest of the table is as it was. */
  ghost predicate SwitchedTo(k: Kernel, k': Kernel, n: nat, left: PCB) {
    && |k'.tasks| == |k.tasks| && 0 <= k.current < |k.tasks| && n < |k.tasks| && k'.current == n
    && (forall j :: 0 <= j < |k.tasks| && j != n && j != k.current ==> k'.tasks[j] == k.tasks[j])
    && k'.tasks[n].pcb.state == RUNNING && k'.tasks[k.current].pcb == left
  }

  /** Task n is READY, and cyclically the first such task after the current one. */
  ghost predicate NextInLine(k: Kernel, n: nat) {
    && n < |k.tasks| && n != k.current && k.tasks[n].pcb.state == READY
    && forall j :: 0 <= j < |k.tasks| && k.tasks[j].pcb.state == READY ==>
         Ahead(k.current, n, |k.tasks|) <= Ahead(k.current, j, |k.tasks|)
  }

  /** An entry that reaches the scheduler while no waiter can be woken switches to the nearest READY task. */
  lemma SwitchStep(k: Kernel, ev: Event, n: nat) returns (k': Kernel)
    requires Inv(k) && k.current >= 0 && Enabled(k, ev) && Schedules(k, ev)
    requires !LastWaiterCanWake(AtSchedule(k, ev).tasks)
    requires NextInLine(k, n)
    ensures Step(k, ev, k') && Inv(k')
    ensures var left := AtSchedule(k, ev).tasks[k.current].pcb;
            SwitchedTo(k, k', n, if left.state == RUNNING then left.(state := READY) else left)
  {
    AtScheduleIs(k, ev);
    var a := AtSchedule(k, ev);
    assert a.tasks[n] == k.tasks[n];
    ReturnsWhen(a, ev.esp);
    ScheduleEffect(a, ev.esp);
    k' := Next(k, ev).kernel;
    StepKeeps(k, ev, k');
    assert a.tasks[k'.current] == k.tasks[k'.current];
  }

  /** The current task waits for a task that is alive, and the nearest READY task runs. */
  lemma WaitStep(k: Kernel, pid: Word, n: nat, junk: PCB) returns (ev: Event, k': Kernel, left: PCB)
    requires Inv(k) && k.current >= 0 && CanWait(k, pid) && !HasExited(k.tasks, pid)
    requires forall j :: k.current < j < |k.tasks| ==> k.tasks[j].pcb.state != WAITING
    requires NextInLine(k, n)
    ensures Step(k, ev, k') && Inv(k') && IsWait(k, ev, pid)
    ensures SwitchedTo(k, k', n, left) && left.state == WAITING && left.waitpid == pid
  {
    ev := Call(k, WAITPID_INT, pid, 0, junk);
    CallIsEnabled(k, WAITPID_INT, pid, 0, junk);
    assert IsWait(k, ev, pid);
    WaitMarks(k, ev, pid);
    NobodyWoken(k, ev, pid);
    left := AtSchedule(k, ev).tasks[k.current].pcb;
    k' := SwitchStep(k, ev, n);
  }

  lemma NobodyWoken(k: Kernel, ev: Event, pid: Word)
    requires Inv(k) && Enabled(k, ev) && IsWait(k, ev, pid) && !HasExited(k.tasks, pid)
    requires forall j :: k.current < j < |k.tasks| ==> k.tasks[j].pcb.state != WAITING
    ensures !LastWaiterCanWake(AtSchedule(k, ev).tasks)
  {
    EnteredInv(k, ev);
    WaitTarget(Entered(k, ev), pid);
  }

  lemma StartStep(k: Kernel) returns (ev: Event, k': Kernel)
    requires Boot(k)
    ensures Step(k, ev, k') && Inv(k') && k'.current == 0 && |k'.tasks| == 1
    ensures |k'.mem| == |k.mem| && k'.tasks[0].stack == k.tasks[0].stack
  {
    ev := Tick(k);
    FirstTickStartsSecondHangs(k, ev, ev);
    k' := Next(k, ev).kernel;
    StepKeeps(k, ev, k');
    TasksAsBefore(k, ev);
  }

  lemma TasksAsBefore(k: Kernel, ev: Event)
    requires Boot(k) && Enabled(k, ev) && ev.Timer? && Next(k, ev).Returns?
    ensures |Next(k, ev).kernel.tasks| == |k.tasks| && Next(k, ev).kernel.tasks[0].stack == k.tasks[0].stack
  {
    StepKeepsStacks(k, ev, Next(k, ev).kernel);
    AtScheduleIs(k, ev);
    ScheduleEffect(AtSchedule(k, ev), ev.esp);
  }

  /** A run goes on with any entry that returns. */
  lemma AddStep(ss: seq<Kernel>, evs: seq<Event>, ev: Event, k: Kernel)
    requires Run(ss, evs) && Step(ss[|evs|], ev, k)
    ensures Run(ss + [k], evs + [ev])
  {
    var ss', evs' := ss + [k], evs + [ev];
    forall i | 0 <= i < |evs'| ensures StepAt(ss', evs', i) {
      if i < |evs| { assert StepAt(ss, evs, i); }
    }
  }

  /** The first task starts and forks. */
  lemma StartAndFork(k: Kernel, stack: nat, junk: PCB) returns (ss: seq<Kernel>, evs: seq<Event>)
    requires Boot(k) && FreshStack(k, stack)
    ensures Run(ss, evs) && ss[0] == k && |evs| == 2
    ensures Inv(ss[2]) && |ss[2].tasks| == 2 && ss[2].current == 0 && |ss[2].mem| == |k.mem|
    ensures ss[2].tasks[0].stack == k.tasks[0].stack
    ensures ss[2].tasks[1].stack == stack && ss[2].tasks[1].pcb.state == READY
  {
    var e0, k1 := StartStep(k);
    var e1, k2 := ForkStep(k1, stack, junk);
    ss, evs := [k, k1, k2], [e0, e1];
    assert StepAt(ss, evs, 0) && StepAt(ss, evs, 1);
  }

  // ----- two tasks waiting for each other

  /** From every boot state with room for a second stack: the first task starts and forks, each of the two
      waits for the other, and the second of these calls never returns. */
  lemma CrossWaitIsReachable(k: Kernel, stack: nat, junk: PCB) returns (ss: seq<Kernel>, evs: seq<Event>, ev: Event)
    requires Boot(k) && FreshStack(k, stack)
    ensures Run(ss, evs) && ss[0] == k && |evs| == 3 && StepAt(ss, evs, 2) && Enabled(ss[3], ev)
    ensures IsWait(ss[2], evs[2], 2) && IsWait(ss[3], ev, 1) && Next(ss[3], ev).Hangs?
  {
    ss, evs := StartAndFork(k, stack, junk);
    var e2, k3, e3 := CrossWait(ss[2], junk);
    AddStep(ss, evs, e2, k3);
    ss, evs, ev := ss + [k3], evs + [e2], e3;
    assert StepAt(ss, evs, 2);
  }

  lemma CrossWait(k2: Kernel, junk: PCB) returns (e2: Event, k3: Kernel, e3: Event)
    requires Inv(k2) && |k2.tasks| == 2 && k2.current == 0 && k2.tasks[1].pcb.state == READY
    ensures Step(k2, e2, k3) && IsWait(k2, e2, 2)
    ensures Enabled(k3, e3) && IsWait(k3, e3, 1) && Next(k3, e3).Hangs?
  {
    CanWaitWhen(k2, 2);
    HasExitedAt(k2.tasks, 2);
    var left;
    e2, k3, left := WaitStep(k2, 2, 1, junk);
    e3 := Call(k3, WAITPID_INT, 1, 0, junk);
    CallIsEnabled(k3, WAITPID_INT, 1, 0, junk);
    EnteredInv(k3, e3);
    CrossWaitHangs(Entered(k3, e3), e3.esp);
  }

  // ----- a waiter passed over for ever

  /** The current task is interrupted while nobody can be woken, and the nearest READY task runs. */
  lemma TickStep(k: Kernel, n: nat) returns (ev: Event, k': Kernel)
    requires Inv(k) && k.current >= 0 && !LastWaiterCanWake(k.tasks)
    requires NextInLine(k, n)
    ensures Step(k, ev, k') && Inv(k')
    ensures SwitchedTo(k, k', n, k.tasks[k.current].pcb.(state := READY))
  {
    ev := Tick(k);
    k' := SwitchStep(k, ev, n);
  }

  /** Task 0 waits for task 1, which has the CPU, and task 2 waits for task 0. */
  ghost predicate Tangled(k: Kernel) {
    && Inv(k) && |k.tasks| == 3 && k.current == 1
    && k.tasks[0].pcb.state == WAITING && k.tasks[0].pcb.waitpid == 2
    && k.tasks[2].pcb.state == WAITING && k.tasks[2].pcb.waitpid == 1
  }

  /** From there the exit of task 1 never returns, although it is what task 0 waits for. */
  lemma TangledExitHangs(k: Kernel, junk: PCB) returns (ev: Event)
    requires Tangled(k)
    ensures Enabled(k, ev) && IsCall(k, ev, EXIT_INT) && Next(k, ev).Hangs?
    ensures var ts := AtSchedule(k, ev).tasks; ts[0].pcb.state == WAITING && HasExited(ts, ts[0].pcb.waitpid)
  {
    ev := Call(k, EXIT_INT, 0, 0, junk);
    CallIsEnabled(k, EXIT_INT, 0, 0, junk);
    LastWaiterIs(k.tasks, 2);
    HasExitedAt(k.tasks, 1);
    EntryHangsWhen(k, ev);
    AtScheduleIs(k, ev);
    HasExitedAt(AtSchedule(k, ev).tasks, 2);
  }

  /** From every boot state with room for two more stacks: the first task forks twice and waits for the
      second, the third waits for the first, the second exits, and that exit never returns. */
  lemma LostWakeUpIsReachable(k: Kernel, s1: nat, s2: nat, junk: PCB)
    returns (ss: seq<Kernel>, evs: seq<Event>, ev: Event)
    requires Boot(k) && FreshStack(k, s1) && FreshStack(k, s2) && Apart(s1, s2)
    ensures Run(ss, evs) && ss[0] == k && |evs| == 6 && Tangled(ss[6])
    ensures Enabled(ss[6], ev) && IsCall(ss[6], ev, EXIT_INT) && Next(ss[6], ev).Hangs?
  {
    ss, evs := StartAndFork(k, s1, junk);
    var e2, k3 := ForkStep(ss[2], s2, junk);
    var e3, e4, e5, k4, k5, k6 := Tangle(k3, junk);
    AddStep(ss, evs, e2, k3);
    AddStep(ss + [k3], evs + [e2], e3, k4);
    AddStep(ss + [k3] + [k4], evs + [e2] + [e3], e4, k5);
    AddStep(ss + [k3] + [k4] + [k5], evs + [e2] + [e3] + [e4], e5, k6);
    ss, evs := ss + [k3] + [k4] + [k5] + [k6], evs + [e2] + [e3] + [e4] + [e5];
    ev := TangledExitHangs(k6, junk);
  }

  /** The first task waits for the second, a tick lets the third run, and that one waits for the first. */
  lemma Tangle(k3: Kernel, junk: PCB)
    returns (e3: Event, e4: Event, e5: Event, k4: Kernel, k5: Kernel, k6: Kernel)
    requires Inv(k3) && |k3.tasks| == 3 && k3.current == 0
    requires k3.tasks[1].pcb.state == READY && k3.tasks[2].pcb.state == READY
    ensures Step(k3, e3, k4) && Step(k4, e4, k5) && Step(k5, e5, k6) && Tangled(k6)
  {
    CanWaitWhen(k3, 2);
    HasExitedAt(k3.tasks, 2);
    var left;
    e3, k4, left := WaitStep(k3, 2, 1, junk);
    LastWaiterIs(k4.tasks, 0);
    HasExitedAt(k4.tasks, 2);
    e4, k5 := TickStep(k4, 2);
    CanWaitWhen(k5, 1);
    HasExitedAt(k5.tasks, 1);
    e5, k6, left := WaitStep(k5, 1, 1, junk);
  }
}
