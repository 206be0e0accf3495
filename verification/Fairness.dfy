/** Nobody READY waits for ever: how often the CPU can go to other tasks while one task is READY. */
module Fairness {
  import opened ProcessTables
  import opened KernelInvariant
  import opened Scheduling
  import opened KernelRuns
  import opened KernelTheorems

  // ----- bounded bypass

  /** Entry m runs a waiter rather than the next READY task. */
  ghost predicate WakesWaiter(ss: seq<Kernel>, evs: seq<Event>, m: nat)
    requires Run(ss, evs) && m < |evs|
  {
    assert StepAt(ss, evs, m);
    Schedules(ss[m], evs[m]) && LastWaiterCanWake(AtSchedule(ss[m], evs[m]).tasks)
  }

  /** How many of the entries i to j - 1 reached the scheduler. */
  ghost function SchedulerCalls(ss: seq<Kernel>, evs: seq<Event>, i: nat, j: nat): nat
    requires Run(ss, evs) && i <= j < |ss|
  {
    if i == j then 0
    else
      assert StepAt(ss, evs, j - 1);
      SchedulerCalls(ss, evs, i, j - 1) + if Schedules(ss[j - 1], evs[j - 1]) then 1 else 0
  }

  /** One scheduler call that neither wakes a waiter nor picks t moves t at least one place nearer. */
  lemma OneStepNearer(k: Kernel, ev: Event, k': Kernel, t: nat)
    requires Inv(k) && k.current >= 0 && Step(k, ev, k') && t < |k.tasks|
    requires t != k.current && t != k'.current && k.tasks[t].pcb.state == READY
    requires Schedules(k, ev) ==> !LastWaiterCanWake(AtSchedule(k, ev).tasks)
    ensures |k.tasks| <= |k'.tasks| && k'.tasks[t].pcb.state == READY && k'.current >= 0
    ensures Ahead(k'.current, t, |k'.tasks|) + (if Schedules(k, ev) then 1 else 0)
            <= Ahead(k.current, t, |k.tasks|) + (|k'.tasks| - |k.tasks|)
  {
    if Schedules(k, ev) {
      AtScheduleIs(k, ev);
      ScheduleEffect(AtSchedule(k, ev), ev.esp);
      assert AtSchedule(k, ev).tasks[t] == k.tasks[t];
    } else {
      OtherEntries(k, ev, k');
      assert k'.tasks[t] == k.tasks[t];
    }
  }

  /** A READY task d places ahead gets the CPU within d scheduler calls, plus one for each fork in
      between, as long as no waiter is woken: while it has not, the calls made and the places left
      to go add up to at most that. */
  lemma {:induction false} BoundedBypass(ss: seq<Kernel>, evs: seq<Event>, i: nat, j: nat, t: nat)
    requires Run(ss, evs) && 0 < i <= j < |ss| && OffCpu(ss, i, j + 1, t)
    requires t < |ss[i].tasks| && ss[i].tasks[t].pcb.state == READY
    requires forall m :: i <= m < j ==> !WakesWaiter(ss, evs, m)
    ensures |ss[i].tasks| <= |ss[j].tasks| && ss[j].tasks[t].pcb.state == READY
    ensures SchedulerCalls(ss, evs, i, j) + Ahead(ss[j].current, t, |ss[j].tasks|)
            <= Ahead(ss[i].current, t, |ss[i].tasks|) + (|ss[j].tasks| - |ss[i].tasks|)
    ensures SchedulerCalls(ss, evs, i, j) < Ahead(ss[i].current, t, |ss[i].tasks|) + (|ss[j].tasks| - |ss[i].tasks|)
  {
    RunKeeps(ss, evs, j);
    if i < j {
      BoundedBypass(ss, evs, i, j - 1, t);
      RunKeeps(ss, evs, j - 1);
      assert StepAt(ss, evs, j - 1);
      assert !WakesWaiter(ss, evs, j - 1);
      OneStepNearer(ss[j - 1], evs[j - 1], ss[j], t);
    }
  }

  // ----- no starvation, wake-ups included

  /** How many of the entries i to j - 1 hand the CPU to another task. */
  ghost function Handovers(ss: seq<Kernel>, i: nat, j: nat): nat
    requires i <= j < |ss|
  {
    if i == j then 0 else Handovers(ss, i, j - 1) + if ss[j].current != ss[j - 1].current then 1 else 0
  }

  ghost function Dead(ts: seq<Task>): set<nat> { set i: nat | i < |ts| && ts[i].pcb.state == TERMINATED }

  lemma DeadBound(ts: seq<Task>)
    ensures |Dead(ts)| <= |ts|
  {
    RangeBound(Dead(ts), |ts|);
  }

  lemma {:induction false} RangeBound(s: set<nat>, n: nat)
    requires forall i :: i in s ==> i < n
    ensures |s| <= n
  {
    if n == 0 { assert s == {}; }
    else { RangeBound(s - {n - 1}, n - 1); }
  }

  /** A bound on how many waiters can be woken before the next exit: those up to the highest, if that one
      can be woken, and none if it cannot. */
  ghost function Wakeable(ts: seq<Task>): nat { if LastWaiterCanWake(ts) then LastWaiter(ts) + 1 else 0 }

  /** What decides how far a task is from the CPU: how many tasks have terminated, how many waiters can be
      woken before the next exit, how many places there are to go, and how many tasks there are. */
  datatype Gauge = Gauge(dead: nat, wakeable: nat, ahead: int, size: nat)

  ghost function GaugeOf(k: Kernel, t: nat): Gauge {
    Gauge(|Dead(k.tasks)|, Wakeable(k.tasks), Ahead(k.current, t, |k.tasks|), |k.tasks|)
  }

  /** What a handover costs: an exit, a wake-up or a place. */
  ghost predicate Pays(g: Gauge, h: Gauge) {
    && h.size == g.size && h.wakeable <= h.size && h.ahead <= h.size
    && (|| h.dead > g.dead
        || (h.dead == g.dead && h.wakeable < g.wakeable)
        || (h.dead == g.dead && h.wakeable == g.wakeable && h.ahead < g.ahead))
  }

  /** What an entry that leaves the CPU with its task can change: a fork adds a place. */
  ghost predicate Stays(g: Gauge, h: Gauge) {
    h.dead == g.dead && h.wakeable == g.wakeable && g.size <= h.size && h.ahead - g.ahead <= h.size - g.size
  }

  /** Two tables with the same waiters waiting for the same tasks, in which the same tasks have terminated. */
  lemma SameWakeable(ts: seq<Task>, us: seq<Task>)
    requires Numbered(ts) && Numbered(us) && |ts| <= |us|
    requires forall i :: 0 <= i < |ts| ==>
               && (us[i].pcb.state == WAITING <==> ts[i].pcb.state == WAITING)
               && (us[i].pcb.state == TERMINATED <==> ts[i].pcb.state == TERMINATED)
               && (ts[i].pcb.state == WAITING ==> us[i].pcb.waitpid == ts[i].pcb.waitpid <= |ts|)
    requires forall i :: |ts| <= i < |us| ==> us[i].pcb.state !in {WAITING, TERMINATED}
    ensures LastWaiter(us) == LastWaiter(ts) && Wakeable(us) == Wakeable(ts) && Dead(us) == Dead(ts)
  {
    var w := LastWaiter(ts);
    LastWaiterIs(us, w);
    if w >= 0 {
      HasExitedAt(ts, ts[w].pcb.waitpid);
      HasExitedAt(us, ts[w].pcb.waitpid);
    }
  }

  /** Once its highest waiter has been taken out of a table, at most the lower ones can be woken. */
  lemma FewerWakeable(ts: seq<Task>, us: seq<Task>)
    requires |us| == |ts| && LastWaiter(ts) >= 0 && us[LastWaiter(ts)].pcb.state != WAITING
    requires forall i :: LastWaiter(ts) < i < |us| ==> us[i].pcb.state != WAITING
    ensures Wakeable(us) <= LastWaiter(ts)
  {
  }

  lemma DeadButOne(ts: seq<Task>, us: seq<Task>, c: nat)
    requires c < |ts| == |us| && ts[c].pcb.state != TERMINATED
    requires forall i :: 0 <= i < |ts| && i != c ==> us[i] == ts[i]
    ensures Dead(us) == Dead(ts) + if us[c].pcb.state == TERMINATED then {c} else {}
  {
  }

  /** The table the scheduler is called on, compared with the one before the entry. */
  lemma AtScheduleDead(k: Kernel, ev: Event)
    requires Inv(k) && k.current >= 0 && Enabled(k, ev) && Schedules(k, ev)
    ensures var ts := AtSchedule(k, ev).tasks;
            && ts[k.current].pcb.state == (if ev.Timer? then RUNNING
                                           else if IsCall(k, ev, EXIT_INT) then TERMINATED else WAITING)
            && |Dead(ts)| == |Dead(k.tasks)| + (if IsCall(k, ev, EXIT_INT) then 1 else 0)
  {
    AtScheduleIs(k, ev);
    DeadButOne(k.tasks, AtSchedule(k, ev).tasks, k.current);
  }

  /** Going to the next READY task: nobody can be woken afterwards, and any other READY task is nearer. */
  lemma SwitchCloser(a: Kernel, esp: nat, t: nat)
    requires Core(a) && a.current >= 0 && FrameOk(a, esp) && Schedule(a, esp).Returns?
    requires !LastWaiterCanWake(a.tasks) && a.tasks[a.current].pcb.state != READY
    requires t < |a.tasks| && a.tasks[t].pcb.state == READY && Schedule(a, esp).kernel.current != t
    ensures var k' := Schedule(a, esp).kernel;
            && |k'.tasks| == |a.tasks| && 0 <= k'.current < |a.tasks| && k'.current != a.current
            && k'.tasks[t].pcb.state == READY
            && Wakeable(k'.tasks) == 0 && Dead(k'.tasks) == Dead(a.tasks)
            && Ahead(k'.current, t, |a.tasks|) < Ahead(a.current, t, |a.tasks|)
  {
    ScheduleEffect(a, esp);
    SwitchLeavesWaiters(a, esp);
  }

  lemma SwitchLeavesWaiters(a: Kernel, esp: nat)
    requires Core(a) && a.current >= 0 && FrameOk(a, esp) && Schedule(a, esp).Returns?
    requires !LastWaiterCanWake(a.tasks)
    ensures var ts := Schedule(a, esp).kernel.tasks; Wakeable(ts) == 0 && Dead(ts) == Dead(a.tasks)
  {
    ScheduleEffect(a, esp);
    ScheduleKeeps(a, esp);
    SameWakeable(a.tasks, Schedule(a, esp).kernel.tasks);
  }

  /** Going to the highest waiter: only lower ones can be woken before the next exit. */
  lemma WakeCloser(a: Kernel, esp: nat, t: nat)
    requires Core(a) && a.current >= 0 && FrameOk(a, esp) && LastWaiterCanWake(a.tasks)
    requires t < |a.tasks| && a.tasks[t].pcb.state == READY && t != a.current
    ensures Schedule(a, esp).Returns?
    ensures var k' := Schedule(a, esp).kernel;
            && |k'.tasks| == |a.tasks| && k'.current == LastWaiter(a.tasks)
            && k'.tasks[t].pcb.state == READY
            && Wakeable(k'.tasks) <= LastWaiter(a.tasks) && Dead(k'.tasks) == Dead(a.tasks)
  {
    ReturnsWhen(a, esp);
    ScheduleEffect(a, esp);
    var k' := Schedule(a, esp).kernel;
    FewerWakeable(a.tasks, k'.tasks);
    assert forall i :: 0 <= i < |a.tasks| ==>
             (k'.tasks[i].pcb.state == TERMINATED <==> a.tasks[i].pcb.state == TERMINATED);
  }

  lemma OtherStep(k: Kernel, ev: Event, k': Kernel, t: nat)
    requires Inv(k) && k.current >= 0 && Step(k, ev, k') && !Schedules(k, ev) && t < |k.tasks| && t != k.current
    ensures k'.current == k.current && t < |k'.tasks| && k'.tasks[t] == k.tasks[t]
    ensures Stays(GaugeOf(k, t), GaugeOf(k', t))
  {
    OtherEntries(k, ev, k');
    PrefixKeeps(k.tasks, k'.tasks);
    StepKeeps(k, ev, k');
    if |k'.tasks| > |k.tasks| { ForkTable(Entered(k, ev), ev.esp, ev.stack, ev.junk); }
    SameWakeable(k.tasks, k'.tasks);
  }

  lemma SwitchPays(k: Kernel, ev: Event, k': Kernel, t: nat)
    requires Inv(k) && k.current >= 0 && Step(k, ev, k') && Schedules(k, ev) && t < |k.tasks|
    requires !LastWaiterCanWake(AtSchedule(k, ev).tasks)
    requires k.tasks[t].pcb.state == READY && t != k.current && t != k'.current
    ensures |k'.tasks| == |k.tasks| && 0 <= k'.current < |k.tasks| && k'.tasks[t].pcb.state == READY
    ensures Pays(GaugeOf(k, t), GaugeOf(k', t))
  {
    AtScheduleIs(k, ev);
    AtScheduleDead(k, ev);
    var a := AtSchedule(k, ev);
    assert a.tasks[t] == k.tasks[t];
    SwitchCloser(a, ev.esp, t);
  }

  lemma WakePays(k: Kernel, ev: Event, k': Kernel, t: nat)
    requires Inv(k) && k.current >= 0 && Step(k, ev, k') && Schedules(k, ev) && t < |k.tasks|
    requires LastWaiterCanWake(AtSchedule(k, ev).tasks) && k'.current != k.current
    requires k.tasks[t].pcb.state == READY && t != k.current && t != k'.current
    ensures |k'.tasks| == |k.tasks| && 0 <= k'.current < |k.tasks| && k'.tasks[t].pcb.state == READY
    ensures Pays(GaugeOf(k, t), GaugeOf(k', t))
  {
    AtScheduleIs(k, ev);
    AtScheduleDead(k, ev);
    var a := AtSchedule(k, ev);
    assert a.tasks[t] == k.tasks[t];
    WakeCloser(a, ev.esp, t);
    DeadBound(a.tasks);
    if !IsCall(k, ev, EXIT_INT) { WokenBefore(k, ev); }
    WakePaysIn(GaugeOf(k, t), GaugeOf(k', t), if IsCall(k, ev, EXIT_INT) then 1 else 0);
  }

  lemma WakePaysIn(g: Gauge, h: Gauge, exits: nat)
    requires h.size == g.size && h.wakeable <= h.size && h.ahead <= h.size && h.dead == g.dead + exits
    requires exits == 0 ==> h.wakeable < g.wakeable
    ensures Pays(g, h)
  {
  }

  /** Without an exit, a waiter that is not the caller could have been woken before. */
  lemma WokenBefore(k: Kernel, ev: Event)
    requires Inv(k) && k.current >= 0 && Enabled(k, ev) && Schedules(k, ev) && !IsCall(k, ev, EXIT_INT)
    requires var ts := AtSchedule(k, ev).tasks; LastWaiterCanWake(ts) && LastWaiter(ts) != k.current
    ensures Wakeable(k.tasks) == LastWaiter(AtSchedule(k, ev).tasks) + 1
  {
    AtScheduleIs(k, ev);
    AtScheduleDead(k, ev);
    WakeableBut(k.tasks, AtSchedule(k, ev).tasks, k.current);
  }

  lemma WakeableBut(ts: seq<Task>, us: seq<Task>, c: nat)
    requires Numbered(ts) && Numbered(us) && c < |ts| == |us|
    requires forall i :: 0 <= i < |ts| && i != c ==> us[i] == ts[i]
    requires ts[c].pcb.state != WAITING && us[c].pcb.state != TERMINATED
    requires LastWaiterCanWake(us) && LastWaiter(us) != c
    ensures Wakeable(ts) == LastWaiter(us) + 1
  {
    var w := LastWaiter(us);
    LastWaiterIs(ts, w);
    HasExitedAt(us, us[w].pcb.waitpid);
    HasExitedAt(ts, us[w].pcb.waitpid);
  }

  /** A waitpid that returns at once leaves the waiters and the terminated tasks as they were. */
  lemma ComesStraightBack(k: Kernel, ev: Event, k': Kernel)
    requires Inv(k) && k.current >= 0 && Step(k, ev, k') && Schedules(k, ev)
    requires k'.current == k.current
    ensures |k'.tasks| == |k.tasks| && Wakeable(k'.tasks) == Wakeable(k.tasks) && Dead(k'.tasks) == Dead(k.tasks)
  {
    AtScheduleIs(k, ev);
    AtScheduleDead(k, ev);
    ScheduleEffect(AtSchedule(k, ev), ev.esp);
    StepKeeps(k, ev, k');
    SameButRunning(k.tasks, k'.tasks, k.current);
  }

  lemma SameButRunning(ts: seq<Task>, us: seq<Task>, c: nat)
    requires Numbered(ts) && Numbered(us) && StatesOk(ts, c) && c < |ts| == |us|
    requires forall i :: 0 <= i < |ts| && i != c ==> us[i] == ts[i]
    requires ts[c].pcb.state == us[c].pcb.state == RUNNING
    ensures Wakeable(us) == Wakeable(ts) && Dead(us) == Dead(ts)
  {
    SameWakeable(ts, us);
  }

  /** The only entries that reach the scheduler without handing the CPU over are calls of waitpid that come
      straight back: the caller is the highest waiter and its target has terminated. */
  lemma OnlyWaitpidComesBack(k: Kernel, ev: Event, k': Kernel)
    requires Inv(k) && k.current >= 0 && Step(k, ev, k') && Schedules(k, ev)
    ensures k'.current == k.current <==>
            && IsCall(k, ev, WAITPID_INT)
            && var ts := AtSchedule(k, ev).tasks; LastWaiter(ts) == k.current && LastWaiterCanWake(ts)
  {
    AtScheduleIs(k, ev);
    AtScheduleDead(k, ev);
    ScheduleEffect(AtSchedule(k, ev), ev.esp);
  }

  lemma ScheduledStep(k: Kernel, ev: Event, k': Kernel, t: nat)
    requires Inv(k) && k.current >= 0 && Step(k, ev, k') && Schedules(k, ev) && t < |k.tasks|
    requires k.tasks[t].pcb.state == READY && t != k.current && t != k'.current
    ensures var g, h := GaugeOf(k, t), GaugeOf(k', t); if k'.current != k.current then Pays(g, h) else Stays(g, h)
  {
    if !LastWaiterCanWake(AtSchedule(k, ev).tasks) {
      OnlyWaitpidComesBack(k, ev, k');
      SwitchPays(k, ev, k', t);
    } else if k'.current != k.current {
      WakePays(k, ev, k', t);
    } else {
      ComesStraightBack(k, ev, k');
    }
  }

  /** Every handover of the CPU to another task is paid for, woken waiters or not. */
  lemma EveryHandoverPays(k: Kernel, ev: Event, k': Kernel, t: nat)
    requires Inv(k) && k.current >= 0 && Step(k, ev, k') && t < |k.tasks|
    requires k.tasks[t].pcb.state == READY && t != k.current && t != k'.current
    ensures t < |k'.tasks| && k'.tasks[t].pcb.state == READY
    ensures var g, h := GaugeOf(k, t), GaugeOf(k', t); if k'.current != k.current then Pays(g, h) else Stays(g, h)
  {
    OffCpuStep(k, ev, k', t);
    if !Schedules(k, ev) { OtherStep(k, ev, k', t); } else { ScheduledStep(k, ev, k', t); }
  }

  // ----- adding it up

  /** What m more events allow, at c handovers each. */
  ghost function Budget(m: nat, c: nat): nat { if m == 0 then 0 else c + Budget(m - 1, c) }

  lemma {:induction false} BudgetGrows(m: nat, m': nat, c: nat)
    requires m <= m'
    ensures Budget(m, c) <= Budget(m', c)
  {
    if m < m' { BudgetGrows(m, m' - 1, c); }
  }

  lemma {:induction false} BudgetIs(m: nat, c: nat)
    ensures Budget(m, c) == m * c
  {
    if m > 0 {
      BudgetIs(m - 1, c);
      assert m * c == (m - 1) * c + c;
    }
  }

  /** A gauge in a table that grows to at most n tasks, read as a number of handovers. */
  ghost function Distance(g: Gauge, n: nat): int
    requires g.dead <= g.size <= n
  {
    Budget(n - g.dead, Budget(n + 1, n)) + Budget(g.wakeable, n) + g.ahead + (n - g.size)
  }

  lemma OneEntry(g: Gauge, h: Gauge, n: nat, moved: bool)
    requires g.dead <= g.size <= n && h.dead <= h.size <= n && 1 <= g.ahead
    requires if moved then Pays(g, h) else Stays(g, h)
    ensures Distance(h, n) + (if moved then 1 else 0) <= Distance(g, n)
  {
    if moved && h.dead > g.dead {
      BudgetGrows(n - h.dead, n - g.dead - 1, Budget(n + 1, n));
      BudgetGrows(h.wakeable, n, n);
    } else if moved && h.wakeable < g.wakeable {
      BudgetGrows(h.wakeable + 1, g.wakeable, n);
    }
  }

  lemma {:induction false} DistanceShrinks(ss: seq<Kernel>, evs: seq<Event>, i: nat, j: nat, t: nat, n: nat)
    requires Run(ss, evs) && 0 < i <= j < |ss| && OffCpu(ss, i, j + 1, t) && |ss[j].tasks| <= n
    requires t < |ss[i].tasks| && ss[i].tasks[t].pcb.state == READY
    ensures GaugeOf(ss[i], t).dead <= |ss[i].tasks| <= n && GaugeOf(ss[j], t).dead <= |ss[j].tasks|
    ensures t < |ss[j].tasks| && ss[j].tasks[t].pcb.state == READY
    ensures Handovers(ss, i, j) + Distance(GaugeOf(ss[j], t), n) <= Distance(GaugeOf(ss[i], t), n)
  {
    TasksKeepStacks(ss, evs, i, j);
    DeadBound(ss[i].tasks);
    DeadBound(ss[j].tasks);
    if i < j {
      TasksKeepStacks(ss, evs, j - 1, j);
      DistanceShrinks(ss, evs, i, j - 1, t, n);
      OneStep(ss, evs, j - 1, t, n);
    }
  }

  lemma OneStep(ss: seq<Kernel>, evs: seq<Event>, x: nat, t: nat, n: nat)
    requires Run(ss, evs) && 0 < x < |evs| && |ss[x].tasks| <= |ss[x + 1].tasks| <= n
    requires t < |ss[x].tasks| && ss[x].tasks[t].pcb.state == READY && ss[x].current != t && ss[x + 1].current != t
    requires |Dead(ss[x].tasks)| <= |ss[x].tasks| && |Dead(ss[x + 1].tasks)| <= |ss[x + 1].tasks|
    ensures t < |ss[x + 1].tasks| && ss[x + 1].tasks[t].pcb.state == READY
    ensures Distance(GaugeOf(ss[x + 1], t), n) + (if ss[x + 1].current != ss[x].current then 1 else 0)
            <= Distance(GaugeOf(ss[x], t), n)
  {
    RunKeeps(ss, evs, x);
    assert StepAt(ss, evs, x);
    EveryHandoverPays(ss[x], evs[x], ss[x + 1], t);
    OneEntry(GaugeOf(ss[x], t), GaugeOf(ss[x + 1], t), n, ss[x + 1].current != ss[x].current);
  }

  lemma DistanceBounds(g: Gauge, n: nat)
    requires g.dead <= g.size <= n && g.wakeable <= g.size && 1 <= g.ahead <= g.size
    ensures 0 < Distance(g, n) < (n + 1) * (n + 1) * (n + 1)
  {
    BudgetGrows(n - g.dead, n, Budget(n + 1, n));
    BudgetGrows(g.wakeable, n, n);
    BudgetIs(n, Budget(n + 1, n));
    BudgetIs(n + 1, n);
    BudgetIs(n, n);
    CubeExceeds(n);
  }

  lemma CubeExceeds(n: nat)
    ensures n * ((n + 1) * n) + n * n + n + n < (n + 1) * (n + 1) * (n + 1)
  {
    assert (n + 1) * (n + 1) * (n + 1) == n * ((n + 1) * n) + n * n + n * n + 3 * n + 1;
  }

  /** No READY task starves. Whatever is called, waited for and woken, the CPU goes from task to task fewer
      than (n + 1)^3 times before a READY task gets it, n being the number of tasks by then. Every call
      of the scheduler counts but a waitpid that comes straight back. */
  lemma NoStarvation(ss: seq<Kernel>, evs: seq<Event>, i: nat, j: nat, t: nat)
    requires Run(ss, evs) && 0 < i <= j < |ss| && OffCpu(ss, i, j + 1, t)
    requires t < |ss[i].tasks| && ss[i].tasks[t].pcb.state == READY
    ensures var n := |ss[j].tasks|; Handovers(ss, i, j) < (n + 1) * (n + 1) * (n + 1)
  {
    var n := |ss[j].tasks|;
    RunKeeps(ss, evs, i);
    RunKeeps(ss, evs, j);
    DistanceShrinks(ss, evs, i, j, t, n);
    assert ss[i].current != t && ss[j].current != t;
    DistanceBounds(GaugeOf(ss[i], t), n);
    DistanceBounds(GaugeOf(ss[j], t), n);
  }
}
