/** What one call of the scheduler does, and exactly when it comes back. */
module Scheduling {
  import opened Words
  import opened Machine
  import opened ProcessTables
  import opened KernelInvariant

  // ----- the search loop

  /** The value of the loop variable after s rounds of `if (++i >= n) i %= n`. */
  function Probe(current: nat, n: nat, s: nat): (i: nat)
    requires current < n
    ensures i < n
  {
    if s == 0 then current
    else var i := Probe(current, n, s - 1) + 1; if i >= n then i % n else i
  }

  lemma {:induction false} ProbeReaches(current: nat, n: nat, d: nat)
    requires current < n && d <= n
    ensures Probe(current, n, d) == if d == 0 then current else Ring(current, d, n)
  {
    if d > 0 { ProbeReaches(current, n, d - 1); }
  }

  /** The loop, whose guard never fails, leaves by its `break` if and only if some task is READY. */
  lemma SearchEndsWhen(ts: seq<Task>, current: nat)
    requires current < |ts|
    ensures (exists s: nat :: s > 0 && ts[Probe(current, |ts|, s)].pcb.state == READY)
            <==> exists i :: 0 <= i < |ts| && ts[i].pcb.state == READY
  {
    if i :| 0 <= i < |ts| && ts[i].pcb.state == READY {
      var d := Ahead(current, i, |ts|);
      ProbeReaches(current, |ts|, d);
      assert ts[Probe(current, |ts|, d)].pcb.state == READY;
    }
  }

  // ----- when Schedule returns

  ghost predicate SomeReady(ts: seq<Task>) { exists i :: 0 <= i < |ts| && ts[i].pcb.state == READY }

  /** The highest-index waiter, if any, waits for a terminated task. */
  ghost predicate LastWaiterCanWake(ts: seq<Task>) {
    var w := LastWaiter(ts);
    w >= 0 && HasExited(ts, ts[w].pcb.waitpid)
  }

  lemma LastWaiterIs(ts: seq<Task>, w: int)
    requires -1 <= w < |ts| && (w >= 0 ==> ts[w].pcb.state == WAITING)
    requires forall i :: w < i < |ts| ==> ts[i].pcb.state != WAITING
    ensures LastWaiter(ts) == w
  {
  }

  lemma SavedSameChoice(k: Kernel, frame: nat)
    requires k.tasks != [] && -1 <= k.current < |k.tasks|
    ensures var s := Saved(k, frame);
            && LastWaiter(s.tasks) == LastWaiter(k.tasks)
            && (forall pid: Word :: HasExited(s.tasks, pid) == HasExited(k.tasks, pid))
            && SomeReady(s.tasks) == SomeReady(k.tasks)
  {
    var s := Saved(k, frame);
    assert forall i :: 0 <= i < |s.tasks| ==> s.tasks[i].pcb == k.tasks[i].pcb;
    assert forall i :: 0 <= i < |k.tasks| ==> s.tasks[i].pcb == k.tasks[i].pcb;
    LastWaiterIs(s.tasks, LastWaiter(k.tasks));
  }

  /** Schedule comes back if and only if some task is READY or the last waiter can be woken, or there are
      no tasks at all; then it does nothing. */
  lemma ReturnsWhen(k: Kernel, frame: nat)
    requires Sane(k) && FrameOk(k, frame)
    ensures Schedule(k, frame).Returns? <==> k.tasks == [] || SomeReady(k.tasks) || LastWaiterCanWake(k.tasks)
    ensures k.tasks == [] ==> Schedule(k, frame) == Returns(k, frame)
  {
    if k.tasks != [] { ReturnsWhenAnyTask(k, frame); }
  }

  lemma ReturnsWhenAnyTask(k: Kernel, frame: nat)
    requires Sane(k) && FrameOk(k, frame) && k.tasks != []
    ensures Schedule(k, frame).Returns? <==> SomeReady(k.tasks) || LastWaiterCanWake(k.tasks)
  {
    SavedSameChoice(k, frame);
    var s := Saved(k, frame);
    NextReadyIsNearest(s.tasks, s.current, 1);
    if SomeReady(s.tasks) {
      var i :| 0 <= i < |s.tasks| && s.tasks[i].pcb.state == READY;
      assert Ahead(s.current, i, |s.tasks|) >= 1;
    }
  }

  // ----- what a returning call does

  /** The slot Schedule leaves. */
  function Leaving(k: Kernel): int { if k.current == -1 then 0 else k.current }

  /** Every task keeps its place, its stack and its pids; only the slot left has its frame saved and
      is set back to READY if it was running; only the slot entered changes otherwise, to RUNNING. */
  ghost predicate TasksResumed(k: Kernel, frame: nat, k': Kernel) {
    && |k'.tasks| == |k.tasks| && 0 <= k'.current < |k.tasks| && -1 <= k.current < |k.tasks|
    && (forall j :: 0 <= j < |k.tasks| && j != k'.current && j != Leaving(k) ==> k'.tasks[j] == k.tasks[j])
    && (forall j :: 0 <= j < |k.tasks| ==>
          && k'.tasks[j].stack == k.tasks[j].stack
          && k'.tasks[j].cpustate == (if j == k.current then frame else k.tasks[j].cpustate)
          && k'.tasks[j].pcb.pid == k.tasks[j].pcb.pid && k'.tasks[j].pcb.ppid == k.tasks[j].pcb.ppid
          && k'.tasks[j].pcb.waitstate == k.tasks[j].pcb.waitstate)
    && k'.tasks[k'.current].pcb.state == RUNNING
    && (Leaving(k) != k'.current ==>
          k'.tasks[Leaving(k)].pcb == if k.tasks[Leaving(k)].pcb.state in {WAITING, TERMINATED}
                                      then k.tasks[Leaving(k)].pcb
                                      else k.tasks[Leaving(k)].pcb.(state := READY))
  }

  /** The task entered was READY, cyclically first, and memory is untouched; or it was the last
      waiter, its target has terminated, and the only change in memory is a 1 in its saved ecx. */
  ghost predicate RightTask(k: Kernel, frame: nat, k': Kernel, f: nat)
    requires 0 <= k'.current < |k.tasks| == |k'.tasks| && f + FRAME_SIZE <= |k.mem|
  {
    var n := k'.current;
    && f == k'.tasks[n].cpustate
    && match k.tasks[n].pcb.state
       case READY =>
         && k'.mem == k.mem && !LastWaiterCanWake(k.tasks)
         && k'.tasks[n].pcb.waitpid == k.tasks[n].pcb.waitpid
         && forall j :: 0 <= j < |k.tasks| && k.tasks[j].pcb.state == READY ==>
              Ahead(Leaving(k), n, |k.tasks|) <= Ahead(Leaving(k), j, |k.tasks|)
       case WAITING =>
         && n == LastWaiter(k.tasks) && HasExited(k.tasks, k.tasks[n].pcb.waitpid)
         && k'.tasks[n].pcb.waitpid == 0
         && IsStore(k.mem, f + ECX, 1, k'.mem)
       case _ => false
  }

  lemma ScheduleEffect(k: Kernel, frame: nat)
    requires Core(k) && FrameOk(k, frame) && Schedule(k, frame).Returns?
    ensures var Returns(k', f) := Schedule(k, frame);
            && TasksResumed(k, frame, k') && f + FRAME_SIZE <= |k.mem| && RightTask(k, frame, k', f)
  {
    SavedSameChoice(k, frame);
    SavedKeeps(k, frame);
    var s := Saved(k, frame);
    match Choose(s.tasks, s.current)
    case Switch(i) => SwitchEffect(k, frame, i);
    case Wake(w) => WakeEffect(k, frame, w);
  }

  lemma SwitchEffect(k: Kernel, frame: nat, i: nat)
    requires Sane(k) && k.tasks != [] && FrameOk(k, frame) && Sane(Saved(k, frame))
    requires i < |k.tasks| && NextReady(Saved(k, frame).tasks, Leaving(k), 1) == i
    requires !LastWaiterCanWake(Saved(k, frame).tasks)
    ensures var s := Saved(k, frame); var k' := Dispatched(s, i); var f := s.tasks[i].cpustate;
            && TasksResumed(k, frame, k') && f + FRAME_SIZE <= |k.mem| && RightTask(k, frame, k', f)
  {
    var s := Saved(k, frame);
    assert !LastWaiterCanWake(k.tasks) by { SavedSameChoice(k, frame); }
    SavedTasks(k, frame);
    FirstReadyIsNearest(k.tasks, s.tasks, s.current, i);
    DispatchedTasks(k, frame, s, i);
  }

  lemma SavedTasks(k: Kernel, frame: nat)
    requires k.tasks != [] && -1 <= k.current < |k.tasks|
    ensures var s := Saved(k, frame);
            && |s.tasks| == |k.tasks| && s.current == Leaving(k) && s.mem == k.mem
            && forall j :: 0 <= j < |k.tasks| ==>
                 && s.tasks[j].stack == k.tasks[j].stack && s.tasks[j].pcb == k.tasks[j].pcb
                 && s.tasks[j].cpustate == if j == k.current then frame else k.tasks[j].cpustate
  {
  }

  lemma FirstReadyIsNearest(ts: seq<Task>, us: seq<Task>, current: nat, i: nat)
    requires current < |ts| == |us| && i < |ts| && NextReady(us, current, 1) == i
    requires forall j :: 0 <= j < |ts| ==> us[j].pcb == ts[j].pcb
    ensures ts[i].pcb.state == READY
    ensures forall j :: 0 <= j < |ts| && ts[j].pcb.state == READY ==> Ahead(current, i, |ts|) <= Ahead(current, j, |ts|)
  {
    NextReadyIsNearest(us, current, 1);
    forall j | 0 <= j < |ts| && ts[j].pcb.state == READY ensures Ahead(current, i, |ts|) <= Ahead(current, j, |ts|) {
      assert us[j].pcb.state == READY && Ahead(current, j, |ts|) >= 1;
    }
  }

  lemma WakeEffect(k: Kernel, frame: nat, w: nat)
    requires Sane(k) && k.tasks != [] && FrameOk(k, frame) && Sane(Saved(k, frame))
    requires Choose(Saved(k, frame).tasks, Leaving(k)) == Wake(w)
    ensures var s := Saved(k, frame); var k' := Dispatched(Woken(s, w), w); var f := s.tasks[w].cpustate;
            && TasksResumed(k, frame, k') && f + FRAME_SIZE <= |k.mem| && RightTask(k, frame, k', f)
  {
    var s := Saved(k, frame);
    assert w == LastWaiter(k.tasks) && HasExited(k.tasks, s.tasks[w].pcb.waitpid) by { SavedSameChoice(k, frame); }
    SavedTasks(k, frame);
    var v := Woken(s, w);
    assert forall j :: 0 <= j < |k.tasks| && j != w ==> v.tasks[j] == s.tasks[j];
    DispatchedTasks(k, frame, v, w);
  }

  lemma DispatchedTasks(k: Kernel, frame: nat, s: Kernel, i: nat)
    requires -1 <= k.current < |k.tasks| && i < |k.tasks| == |s.tasks| && s.current == Leaving(k)
    requires forall j :: 0 <= j < |k.tasks| ==>
      && s.tasks[j].stack == k.tasks[j].stack
      && s.tasks[j].cpustate == (if j == k.current then frame else k.tasks[j].cpustate)
      && s.tasks[j].pcb == (if j == i then k.tasks[j].pcb.(waitpid := s.tasks[j].pcb.waitpid) else k.tasks[j].pcb)
    ensures TasksResumed(k, frame, Dispatched(s, i)) && Dispatched(s, i).current == i
    ensures Dispatched(s, i).tasks[i].pcb.waitpid == s.tasks[i].pcb.waitpid
  {
  }

  // ----- exactly which calls never return

  /** A table of READY and RUNNING tasks, waiters and terminated tasks hangs the scheduler when nothing is
      READY and the task the highest waiter waits for is still alive. */
  ghost predicate NobodyToRun(ts: seq<Task>) { !SomeReady(ts) && !LastWaiterCanWake(ts) }

  /** An exit never returns exactly when nothing is READY and the highest waiter, if any, waits for a task
      that is alive and is not the one that exits. */
  lemma ExitHangsWhen(k: Kernel, esp: nat)
    requires Inv(k) && k.current >= 0 && InStack(k.tasks[k.current].stack, esp)
    ensures Schedule(KillCurrent(k), esp).Hangs? <==>
            && NobodyToRun(k.tasks)
            && (var w := LastWaiter(k.tasks); w >= 0 ==> k.tasks[w].pcb.waitpid != k.tasks[k.current].pcb.pid)
  {
    var v, w := KillCurrent(k), LastWaiter(k.tasks);
    KillKeeps(k);
    ReturnsWhen(v, esp);
    LastWaiterIs(v.tasks, w);
    ReadyButCurrent(k, v);
    if w >= 0 {
      HasExitedAt(k.tasks, k.tasks[w].pcb.waitpid);
      HasExitedAt(v.tasks, k.tasks[w].pcb.waitpid);
    }
  }

  /** A successful waitpid never returns exactly when nothing is READY and the target of the highest
      waiter, the caller included, is alive. */
  lemma WaitHangsWhen(k: Kernel, pid: Word, esp: nat)
    requires Inv(k) && k.current >= 0 && InStack(k.tasks[k.current].stack, esp) && CanWait(k, pid)
    ensures Schedule(WaitTask(k, pid), esp).Hangs? <==>
            && !SomeReady(k.tasks)
            && var w := LastWaiter(k.tasks); !HasExited(k.tasks, if w > k.current then k.tasks[w].pcb.waitpid else pid)
  {
    var v := WaitTask(k, pid);
    WaitKeeps(k, pid);
    ReturnsWhen(v, esp);
    ReadyButCurrent(k, v);
    WaitTarget(k, pid);
  }

  lemma ReadyButCurrent(k: Kernel, v: Kernel)
    requires 0 <= k.current < |k.tasks| == |v.tasks|
    requires forall j :: 0 <= j < |k.tasks| && j != k.current ==> v.tasks[j] == k.tasks[j]
    requires k.tasks[k.current].pcb.state != READY && v.tasks[k.current].pcb.state != READY
    ensures SomeReady(v.tasks) == SomeReady(k.tasks)
  {
  }

  /** Who the highest waiter is once the current task waits, and whether it can be woken. */
  lemma WaitTarget(k: Kernel, pid: Word)
    requires Inv(k) && k.current >= 0 && CanWait(k, pid)
    ensures var w, ts := LastWaiter(k.tasks), WaitTask(k, pid).tasks;
            && LastWaiter(ts) == (if w > k.current then w else k.current)
            && (LastWaiterCanWake(ts) <==> HasExited(k.tasks, if w > k.current then k.tasks[w].pcb.waitpid else pid))
  {
    var w, ts := LastWaiter(k.tasks), WaitTask(k, pid).tasks;
    var w' := if w > k.current then w else k.current;
    assert forall j :: 0 <= j < |ts| && j != k.current ==> ts[j] == k.tasks[j];
    LastWaiterIs(ts, w');
    HasExitedAt(k.tasks, ts[w'].pcb.waitpid);
    HasExitedAt(ts, ts[w'].pcb.waitpid);
  }

  /** Two tasks waiting for each other wedge the kernel. */
  lemma CrossWaitHangs(k: Kernel, esp: nat)
    requires Inv(k) && |k.tasks| == 2 && k.current == 1 && InStack(k.tasks[1].stack, esp)
    requires k.tasks[0].pcb.state == WAITING
    ensures CanWait(k, 1) && Schedule(WaitTask(k, 1), esp).Hangs?
  {
    CanWaitWhen(k, 1);
    WaitHangsWhen(k, 1, esp);
  }

  /** A successful waitpid comes straight back to its caller exactly when its target has terminated and
      no higher task is waiting; then it resumes where it called from, with a 1 in ecx. */
  lemma WaitReturnsAtOnceWhen(k: Kernel, pid: Word, esp: nat)
    requires Inv(k) && k.current >= 0 && InStack(k.tasks[k.current].stack, esp) && CanWait(k, pid)
    ensures var r := Schedule(WaitTask(k, pid), esp);
            && (r.Returns? && r.kernel.current == k.current <==>
                  HasExited(k.tasks, pid) && LastWaiter(k.tasks) < k.current)
            && (r.Returns? && r.kernel.current == k.current ==>
                  r.frame == esp && IsStore(k.mem, esp + ECX, 1, r.kernel.mem))
  {
    WaitKeeps(k, pid);
    WaitTarget(k, pid);
    ReturnsToWaiterWhen(WaitTask(k, pid), esp);
  }

  lemma ReturnsToWaiterWhen(v: Kernel, esp: nat)
    requires Core(v) && FrameOk(v, esp) && v.current >= 0 && v.tasks[v.current].pcb.state == WAITING
    ensures var r := Schedule(v, esp);
            && (r.Returns? && r.kernel.current == v.current <==>
                  LastWaiter(v.tasks) == v.current && LastWaiterCanWake(v.tasks))
            && (r.Returns? && r.kernel.current == v.current ==>
                  r.frame == esp && IsStore(v.mem, esp + ECX, 1, r.kernel.mem))
  {
    ReturnsWhen(v, esp);
    if Schedule(v, esp).Returns? { ScheduleEffect(v, esp); }
  }

  // ----- the waiting discipline

  /** Every waiter waits for a younger task, as a program does that waits only for what it forked. */
  ghost predicate Disciplined(ts: seq<Task>) {
    forall i :: 0 <= i < |ts| && ts[i].pcb.state == WAITING ==> ts[i].pcb.waitpid > i + 1
  }

  /** Under the discipline the last waiter's target is itself no waiter. */
  lemma LastTargetDoesNotWait(ts: seq<Task>, current: int)
    requires Numbered(ts) && StatesOk(ts, current) && Disciplined(ts) && LastWaiter(ts) >= 0
    ensures var t := ts[LastWaiter(ts)].pcb.waitpid - 1;
            && 0 <= t < |ts| && ts[t].pcb.state in {READY, RUNNING, TERMINATED}
            && (ts[t].pcb.state == RUNNING ==> t == current)
    ensures LastWaiterCanWake(ts) <==> ts[ts[LastWaiter(ts)].pcb.waitpid - 1].pcb.state == TERMINATED
  {
    HasExitedAt(ts, ts[LastWaiter(ts)].pcb.waitpid);
  }

  /** Under the discipline nobody can be run in place of the current task exactly when nothing is READY
      and the last waiter, if any, waits for the current task. */
  lemma DisciplinedNobody(k: Kernel)
    requires Inv(k) && k.current >= 0 && Disciplined(k.tasks)
    ensures NobodyToRun(k.tasks) <==>
            && !SomeReady(k.tasks)
            && (var w := LastWaiter(k.tasks); w >= 0 ==> k.tasks[w].pcb.waitpid == k.tasks[k.current].pcb.pid)
  {
    if LastWaiter(k.tasks) >= 0 { LastTargetDoesNotWait(k.tasks, k.current); }
  }

  /** If the highest waiter and the current task wait for younger tasks only, then the task the higher of
      the two waits for has terminated, or some task is READY. */
  lemma YoungerTargetRunsOrIsGone(k: Kernel, pid: Word)
    requires Inv(k) && k.current >= 0 && Disciplined(k.tasks) && k.current + 1 < pid <= |k.tasks|
    ensures var w := LastWaiter(k.tasks);
            SomeReady(k.tasks) || HasExited(k.tasks, if w > k.current then k.tasks[w].pcb.waitpid else pid)
  {
    var w := LastWaiter(k.tasks);
    var p := if w > k.current then k.tasks[w].pcb.waitpid else pid;
    if w > k.current { LastTargetDoesNotWait(k.tasks, k.current); }
    HasExitedAt(k.tasks, p);
    assert k.tasks[p - 1].pcb.state in {READY, TERMINATED};
  }

  /** Under the discipline, if the last waiter's target, if any, is alive and not the current task, and nothing
      is READY, then every other task has terminated; and conversely. */
  lemma OthersTerminated(k: Kernel)
    requires Inv(k) && k.current >= 0 && Disciplined(k.tasks)
    ensures var w := LastWaiter(k.tasks);
            && NobodyToRun(k.tasks) && (w >= 0 ==> k.tasks[w].pcb.waitpid != k.tasks[k.current].pcb.pid)
            <==> forall j :: 0 <= j < |k.tasks| && j != k.current ==> k.tasks[j].pcb.state == TERMINATED
  {
    DisciplinedNobody(k);
  }

  // ----- ancestry

  /** The slots met by following ppid from slot i. */
  ghost function Ancestry(ts: seq<Task>, i: nat): seq<nat>
    requires Numbered(ts) && i < |ts|
  {
    if i == 0 then [0] else [i] + Ancestry(ts, ts[i].pcb.ppid - 1)
  }

  /** Following ppid from any task descends strictly and ends at pid 1. */
  lemma {:induction false} AncestryReachesFirst(ts: seq<Task>, i: nat)
    requires Numbered(ts) && i < |ts|
    ensures var c := Ancestry(ts, i);
            && c[0] == i && c[|c| - 1] == 0
            && (forall j :: 0 <= j < |c| ==> c[j] < |ts|)
            && (forall j, l :: 0 <= j < l < |c| ==> c[l] < c[j])
            && (forall j, l :: 0 <= j < l < |c| && l <= j + 1 ==> ts[c[j]].pcb.ppid == ts[c[l]].pcb.pid)
  {
    if i > 0 {
      AncestryReachesFirst(ts, ts[i].pcb.ppid - 1);
      var c, rest := Ancestry(ts, i), Ancestry(ts, ts[i].pcb.ppid - 1);
      assert forall j :: 0 < j < |c| ==> c[j] == rest[j - 1];
    }
  }
}
