/** The kernel on top of its heap: fork's new task is an ordinary allocation. That a new stack is apart
    from every other is then a theorem about the allocator and not an assumption about fork. */
module KernelHeap {
  import opened Words
  import opened Machine
  import opened ProcessTables
  import opened KernelInvariant
  import opened Scheduling
  import opened KernelRuns
  import HL = HeapLayouts
  import HT = HeapTheorems
  import HR = HeapRuns

  /** sizeof(Task): the stack, the frame pointer and five control-block words. */
  const TASK_SIZE: Word := 4120

  datatype System = System(kernel: Kernel, heap: HR.Heap)

  /** A kernel entry, or an allocator call made by other kernel code. */
  datatype Action = Enter(ev: Event) | Other(op: HR.Op)

  /** The region of physical memory given to the allocator. */
  datatype Region = Region(start: nat, total: nat)

  ghost predicate IsTask(k: Kernel, ptr: nat) { exists i :: 0 < i < |k.tasks| && k.tasks[i].stack == ptr }

  /** The first task lies outside the heap, every forked task is a live allocation of the right size. */
  ghost predicate Housed(s: System, r: Region) {
    && s.kernel.tasks != [] && r.start + r.total <= |s.kernel.mem|
    && (s.kernel.tasks[0].stack + STACK_SIZE <= r.start || r.start + r.total <= s.kernel.tasks[0].stack)
    && forall i :: 0 < i < |s.kernel.tasks| ==>
         s.kernel.tasks[i].stack in s.heap.requested && s.heap.requested[s.kernel.tasks[i].stack] == TASK_SIZE
  }

  ghost predicate SystemInv(s: System, r: Region) {
    Inv(s.kernel) && HR.Invariant(s.heap, r.start, r.total) && HL.Addressable(r.start, r.total) && Housed(s, r)
  }

  ghost predicate SystemBoot(s: System, r: Region) {
    && Boot(s.kernel) && HL.Addressable(r.start, r.total) && s.heap == HR.Boot(r.start, r.total) && Housed(s, r)
  }

  predicate ForksOn(ev: Event)
    requires ev.Syscall? ==> ev.esp + FRAME_SIZE <= |ev.mem|
  {
    ev.Syscall? && Load(ev.mem, ev.esp + EAX) == FORK_INT
  }

  /** What the environment must respect. Nothing is said about where a forked task lands, only that
      the allocation succeeds and that its address is used. */
  ghost predicate Allowed(s: System, a: Action) {
    match a
    case Enter(ev) =>
      && Sane(s.kernel) && |ev.mem| == |s.kernel.mem| && FrameOk(s.kernel, ev.esp)
      && (ev.Syscall? ==> s.kernel.current >= 0)
      && (ForksOn(ev) ==>
            |s.kernel.tasks| < MAX_TASKS && ev.stack != 0 && ev.stack == HL.Malloc(s.heap.layout, TASK_SIZE).1)
    case Other(op) =>
      HR.Enabled(s.heap, op) && (op.Release? ==> !IsTask(s.kernel, op.ptr))
  }

  /** The heap after an action, and the kernel after it if it returns. */
  ghost predicate Acts(s: System, a: Action, s': System) {
    && Allowed(s, a)
    && match a
       case Enter(ev) =>
         && Step(s.kernel, ev, s'.kernel)
         && s'.heap == (if ForksOn(ev) then HR.Apply(s.heap, HR.Alloc(TASK_SIZE)) else s.heap)
       case Other(op) =>
         // what the call writes shows in the memory of the next entry
         && s'.kernel == s.kernel && s'.heap == HR.Apply(s.heap, op)
  }

  /** Live payloads of the heap do not overlap, so a task's memory meets no other live allocation. */
  lemma LiveApart(h: HR.Heap, r: Region, p: nat, q: nat)
    requires HR.Invariant(h, r.start, r.total) && p in h.requested && q in h.requested && p != q
    ensures r.start <= p && p + h.requested[p] <= r.start + r.total
    ensures p + h.requested[p] <= q || q + h.requested[q] <= p
  {
    var i, j := HL.HeldAt(h.layout, p), HL.HeldAt(h.layout, q);
    assert h.layout[i] in HL.Live(h.layout) && h.layout[j] in HL.Live(h.layout);
    HT.ChunkBounds(h.layout, r.start, r.start + r.total, i);
    if i < j { HT.Ordered(h.layout, r.start, r.start + r.total, i, j); }
    if j < i { HT.Ordered(h.layout, r.start, r.start + r.total, j, i); }
  }

  lemma InRegion(h: HR.Heap, r: Region, p: nat)
    requires HR.Invariant(h, r.start, r.total) && p in h.requested
    ensures r.start <= p && p + h.requested[p] <= r.start + r.total
  {
    var i := HL.HeldAt(h.layout, p);
    assert h.layout[i] in HL.Live(h.layout);
    HT.ChunkBounds(h.layout, r.start, r.start + r.total, i);
  }

  /** The allocator hands fork a stack apart from every stack in use. */
  lemma AllocatedStackIsFresh(s: System, r: Region)
    requires SystemInv(s, r) && HL.Malloc(s.heap.layout, TASK_SIZE).1 != 0
    ensures FreshStack(s.kernel, HL.Malloc(s.heap.layout, TASK_SIZE).1)
  {
    var ptr := HL.Malloc(s.heap.layout, TASK_SIZE).1;
    var h' := HR.Apply(s.heap, HR.Alloc(TASK_SIZE));
    HR.ApplyKeeps(s.heap, HR.Alloc(TASK_SIZE), r.start, r.total);
    HT.MallocKeeps(s.heap.layout, r.start, r.total, TASK_SIZE);
    InRegion(h', r, ptr);
    forall i | 0 <= i < |s.kernel.tasks| ensures Apart(s.kernel.tasks[i].stack, ptr) {
      if i > 0 {
        var q := s.kernel.tasks[i].stack;
        assert q in s.heap.requested && HL.Holds(s.heap.layout, q);
        assert q != ptr && h'.requested[q] == TASK_SIZE;
        LiveApart(h', r, q, ptr);
      }
    }
  }

  /** So every allowed entry is an entry in the sense of the kernel's own runs. */
  lemma AllowedIsEnabled(s: System, ev: Event, r: Region)
    requires SystemInv(s, r) && Allowed(s, Enter(ev))
    ensures Enabled(s.kernel, ev)
  {
    if ForksOn(ev) {
      AllocatedStackIsFresh(s, r);
      assert FreshStack(Entered(s.kernel, ev), ev.stack);
    }
  }

  lemma ActsKeeps(s: System, a: Action, s': System, r: Region)
    requires SystemInv(s, r) && Acts(s, a, s')
    ensures SystemInv(s', r)
  {
    match a
    case Enter(ev) =>
      StepKeeps(s.kernel, ev, s'.kernel);
      if ForksOn(ev) {
        HR.ApplyKeeps(s.heap, HR.Alloc(TASK_SIZE), r.start, r.total);
        HT.MallocKeeps(s.heap.layout, r.start, r.total, TASK_SIZE);
      }
      EnterHoused(s, ev, s', r);
    case Other(op) =>
      HR.ApplyKeeps(s.heap, op, r.start, r.total);
      OtherHoused(s, op, s', r);
  }

  lemma EnterHoused(s: System, ev: Event, s': System, r: Region)
    requires SystemInv(s, r) && Acts(s, Enter(ev), s')
    ensures Housed(s', r)
  {
    if ForksOn(ev) {
      ForkHoused(s, ev, s', r);
    } else {
      StepKeepsPlaces(s.kernel, ev, s'.kernel);
      forall i | 0 < i < |s'.kernel.tasks|
        ensures var p := s'.kernel.tasks[i].stack; p in s'.heap.requested && s'.heap.requested[p] == TASK_SIZE
      {
        assert s'.kernel.tasks[i].stack == s.kernel.tasks[i].stack;
      }
    }
  }

  lemma StepKeepsPlaces(k: Kernel, ev: Event, k': Kernel)
    requires Inv(k) && Step(k, ev, k') && !ForksOn(ev)
    ensures |k'.tasks| == |k.tasks| && |k'.mem| == |k.mem|
    ensures forall t :: 0 <= t < |k.tasks| ==> k'.tasks[t].stack == k.tasks[t].stack
  {
    if Schedules(k, ev) {
      AtScheduleIs(k, ev);
      ScheduleEffect(AtSchedule(k, ev), ev.esp);
    } else {
      OtherEntries(k, ev, k');
    }
  }

  lemma ForkHoused(s: System, ev: Event, s': System, r: Region)
    requires SystemInv(s, r) && Acts(s, Enter(ev), s') && ForksOn(ev)
    ensures Housed(s', r)
  {
    var k, k' := s.kernel, s'.kernel;
    ForkTable(Entered(k, ev), ev.esp, ev.stack, ev.junk);
    HT.MallocKeeps(s.heap.layout, r.start, r.total, TASK_SIZE);
    assert s'.heap.requested == s.heap.requested[ev.stack as nat := TASK_SIZE];
    forall i | 0 < i < |k'.tasks|
      ensures k'.tasks[i].stack in s'.heap.requested && s'.heap.requested[k'.tasks[i].stack] == TASK_SIZE
    {
      if i < |k.tasks| { assert k'.tasks[i] == k.tasks[i] && k.tasks[i].stack in s.heap.requested; }
    }
  }

  lemma OtherHoused(s: System, op: HR.Op, s': System, r: Region)
    requires SystemInv(s, r) && Acts(s, Other(op), s')
    ensures Housed(s', r)
  {
    forall i | 0 < i < |s.kernel.tasks|
      ensures s.kernel.tasks[i].stack in s'.heap.requested && s'.heap.requested[s.kernel.tasks[i].stack] == TASK_SIZE
    {
      var q := s.kernel.tasks[i].stack;
      assert q in s.heap.requested && IsTask(s.kernel, q);
      OthersStay(s.heap, op, q, r);
    }
  }

  /** An allocator call leaves every other live allocation as it is. */
  lemma OthersStay(h: HR.Heap, op: HR.Op, q: nat, r: Region)
    requires HR.Invariant(h, r.start, r.total) && HL.Addressable(r.start, r.total) && HR.Enabled(h, op)
    requires q in h.requested && (op.Release? ==> op.ptr != q)
    ensures var h' := HR.Apply(h, op); q in h'.requested && h'.requested[q] == h.requested[q]
  {
    if op.Alloc? {
      HT.MallocKeeps(h.layout, r.start, r.total, op.size);
      assert HL.Holds(h.layout, q);
    }
  }

  ghost predicate SystemRun(ss: seq<System>, acts: seq<Action>, r: Region) {
    && |ss| == |acts| + 1 && SystemBoot(ss[0], r)
    && forall i :: 0 <= i < |acts| ==> ActsAt(ss, acts, i)
  }

  ghost predicate ActsAt(ss: seq<System>, acts: seq<Action>, i: nat)
    requires |ss| == |acts| + 1 && i < |acts|
  {
    Acts(ss[i], acts[i], ss[i + 1])
  }

  /** Over every run of kernel and allocator together, with frees of anything but tasks in between:
      both invariants hold, stacks stay disjoint, and each entry finds what fork needs. */
  lemma {:induction false} SystemRunKeeps(ss: seq<System>, acts: seq<Action>, r: Region, i: nat)
    requires SystemRun(ss, acts, r) && i < |ss|
    ensures SystemInv(ss[i], r)
    ensures forall ev :: Allowed(ss[i], Enter(ev)) ==> Enabled(ss[i].kernel, ev)
  {
    if i == 0 {
      assert HL.Live(HL.Initial(r.start, r.total)) == {};
    } else {
      SystemRunKeeps(ss, acts, r, i - 1);
      assert ActsAt(ss, acts, i - 1);
      ActsKeeps(ss[i - 1], acts[i - 1], ss[i], r);
    }
    forall ev | Allowed(ss[i], Enter(ev)) ensures Enabled(ss[i].kernel, ev) {
      AllowedIsEnabled(ss[i], ev, r);
    }
  }

  // ----- the kernel's own run inside a run of the whole

  function Entries(acts: seq<Action>): seq<Event> {
    if acts == [] then []
    else Entries(acts[..|acts| - 1]) + (match acts[|acts| - 1] case Enter(ev) => [ev] case Other(_) => [])
  }

  ghost function Kernels(ss: seq<System>, acts: seq<Action>): seq<Kernel>
    requires |ss| == |acts| + 1
  {
    if acts == [] then [ss[0].kernel]
    else Kernels(ss[..|acts|], acts[..|acts| - 1]) + if acts[|acts| - 1].Enter? then [ss[|acts|].kernel] else []
  }

  /** What is proved of every kernel run holds of the kernel inside every run of the whole system. */
  lemma {:induction false} SystemRunIsKernelRun(ss: seq<System>, acts: seq<Action>, r: Region)
    requires SystemRun(ss, acts, r)
    ensures var ks := Kernels(ss, acts); Run(ks, Entries(acts)) && ks[|ks| - 1] == ss[|acts|].kernel
  {
    if acts != [] {
      var n := |acts| - 1;
      var ss', acts' := ss[..n + 1], acts[..n];
      forall i | 0 <= i < n ensures ActsAt(ss', acts', i) { assert ActsAt(ss, acts, i); }
      SystemRunIsKernelRun(ss', acts', r);
      assert ActsAt(ss, acts, n);
      RunExtends(Kernels(ss', acts'), Entries(acts'), Kernels(ss, acts), Entries(acts));
    }
  }

  lemma RunExtends(ks: seq<Kernel>, evs: seq<Event>, ks': seq<Kernel>, evs': seq<Event>)
    requires Run(ks, evs)
    requires || (ks' == ks && evs' == evs)
             || (|ks'| == |ks| + 1 && |evs'| == |evs| + 1 && ks'[..|ks|] == ks && evs'[..|evs|] == evs
                 && Step(ks[|ks| - 1], evs'[|evs|], ks'[|ks|]))
    ensures Run(ks', evs')
  {
    if |evs'| > |evs| {
      assert ks'[0] == ks[0];
      forall i | 0 <= i < |evs'| ensures StepAt(ks', evs', i) {
        if i < |evs| {
          assert StepAt(ks, evs, i);
          assert ks'[i] == ks[i] && ks'[i + 1] == ks[i + 1] && evs'[i] == evs[i];
        } else {
          assert ks'[i] == ks'[..|ks|][i] == ks[|ks| - 1];
        }
      }
    }
  }
}
