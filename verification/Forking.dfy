/** Fork: the child is the parent's twin but for ebx and a relocated ebp, in one call and in whole runs. */
module Forking {
  import opened Words
  import opened Machine
  import opened ProcessTables
  import opened KernelInvariant
  import opened KernelRuns
  import opened KernelTheorems

  /** Offset d of a stack is not one of the eight bytes fork rewrites in the frame at offset off. */
  predicate Untouched(off: nat, d: nat) { !(off + EBX <= d < off + EBX + 4) && !(off + EBP <= d < off + EBP + 4) }

  /** The stack at child in m' is the stack at parent in m, but for ebx and ebp in its frame. */
  ghost predicate StackTwin(m: Memory, parent: nat, esp: nat, m': Memory, child: nat)
    requires parent + STACK_SIZE <= |m| && child + STACK_SIZE <= |m'| && InStack(parent, esp)
  {
    forall d :: 0 <= d < STACK_SIZE && Untouched(esp - parent, d) ==>
      StackBytes(m', child)[d] == StackBytes(m, parent)[d]
  }

  /** And there ebx is 0 and ebp is carried over. */
  ghost predicate Twin(m: Memory, parent: nat, esp: nat, m': Memory, child: nat)
    requires parent + STACK_SIZE <= |m| && child + STACK_SIZE <= |m'| && InStack(parent, esp)
  {
    var f := TwinFrame(esp, parent, child);
    && Load(m', f + EBX) == 0 && Load(m', f + EBP) == TwinEbp(Load(m, esp + EBP), parent, child)
    && StackTwin(m, parent, esp, m', child)
  }

  /** The four changes fork makes to memory: the copy, the child's ebp and ebx, the parent's ebx. */
  ghost predicate ForkWrites(m: Memory, from: nat, esp: nat, to: nat, pid: Word,
                             m0: Memory, m1: Memory, m2: Memory, m3: Memory)
    requires from + STACK_SIZE <= |m| && to + STACK_SIZE <= |m| && InStack(from, esp)
  {
    var child := TwinFrame(esp, from, to);
    && |m0| == |m1| == |m2| == |m|
    && IsCopy(m, from, to, m0)
    && IsStore(m0, child + EBP, TwinEbp(Load(m, esp + EBP), from, to), m1)
    && IsStore(m1, child + EBX, 0, m2)
    && IsStore(m2, esp + EBX, pid, m3)
  }

  /** The memory after the four changes. */
  ghost function ForkedMemory(m: Memory, from: nat, esp: nat, to: nat, pid: Word): Memory
    requires from + STACK_SIZE <= |m| && to + STACK_SIZE <= |m| && InStack(from, esp)
  {
    var child := TwinFrame(esp, from, to);
    var m0 := CopyStack(m, from, to);
    Store(Store(Store(m0, child + EBP, TwinEbp(Load(m0, esp + EBP), from, to)), child + EBX, 0), esp + EBX, pid)
  }

  lemma ForkMemoryIs(k: Kernel, esp: nat, stack: nat, junk: PCB)
    requires Sane(k) && 0 <= k.current && |k.tasks| < MAX_TASKS
    requires InStack(k.tasks[k.current].stack, esp) && stack + STACK_SIZE <= |k.mem|
    ensures Fork(k, esp, stack, junk).mem == ForkedMemory(k.mem, k.tasks[k.current].stack, esp, stack, |k.tasks| + 1)
  {
  }

  lemma WritesMakeTwin(m: Memory, from: nat, esp: nat, to: nat, pid: Word,
                       m0: Memory, m1: Memory, m2: Memory, m3: Memory)
    requires from + STACK_SIZE <= |m| && to + STACK_SIZE <= |m| && InStack(from, esp) && Apart(from, to)
    requires ForkWrites(m, from, esp, to, pid, m0, m1, m2, m3)
    ensures |m3| == |m| && Twin(m, from, esp, m3, to)
  {
    var child := TwinFrame(esp, from, to);
    LoadSame(m1, m2, child + EBP);
    LoadSame(m2, m3, child + EBP);
    LoadSame(m2, m3, child + EBX);
    forall d | 0 <= d < STACK_SIZE && Untouched(esp - from, d)
      ensures StackBytes(m3, to)[d] == StackBytes(m, from)[d]
    {
      var a := to + d;
      assert m3[a] == m2[a] == m1[a] == m0[a] == m[from + (a - to)];
    }
  }

  lemma WritesElsewhere(m: Memory, from: nat, esp: nat, to: nat, pid: Word,
                        m0: Memory, m1: Memory, m2: Memory, m3: Memory)
    requires from + STACK_SIZE <= |m| && to + STACK_SIZE <= |m| && InStack(from, esp)
    requires ForkWrites(m, from, esp, to, pid, m0, m1, m2, m3)
    ensures |m3| == |m| && Load(m3, esp + EBX) == pid
    ensures forall a :: 0 <= a < |m3| && !(to <= a < to + STACK_SIZE) && !(esp + EBX <= a < esp + EBX + 4) ==>
              m3[a] == m[a]
  {
    forall a | 0 <= a < |m3| && !(to <= a < to + STACK_SIZE) && !(esp + EBX <= a < esp + EBX + 4)
      ensures m3[a] == m[a]
    {
      assert m3[a] == m2[a] == m1[a] == m0[a];
    }
  }

  /** The stack at to has become a twin of the one at from, the word pid has been written into the ebx of
      the frame at esp, and no other byte of memory has changed. */
  ghost predicate Duplicated(m: Memory, from: nat, esp: nat, to: nat, pid: Word, m': Memory)
    requires from + STACK_SIZE <= |m| && to + STACK_SIZE <= |m| && InStack(from, esp)
  {
    && |m'| == |m| && Twin(m, from, esp, m', to) && Load(m', esp + EBX) == pid
    && forall a :: 0 <= a < |m| && !(to <= a < to + STACK_SIZE) && !(esp + EBX <= a < esp + EBX + 4) ==> m'[a] == m[a]
  }

  lemma MemoryDuplicates(m: Memory, from: nat, esp: nat, to: nat, pid: Word)
    requires from + STACK_SIZE <= |m| && to + STACK_SIZE <= |m| && InStack(from, esp) && Apart(from, to)
    ensures Duplicated(m, from, esp, to, pid, ForkedMemory(m, from, esp, to, pid))
  {
    var child := TwinFrame(esp, from, to);
    var m0 := CopyStack(m, from, to);
    LoadSame(m, m0, esp + EBP);
    var m1 := Store(m0, child + EBP, TwinEbp(Load(m0, esp + EBP), from, to));
    var m2 := Store(m1, child + EBX, 0);
    var m3 := Store(m2, esp + EBX, pid);
    WritesMakeTwin(m, from, esp, to, pid, m0, m1, m2, m3);
    WritesElsewhere(m, from, esp, to, pid, m0, m1, m2, m3);
  }

  /** The child's stack is a twin of the parent's; the parent's own frame changes only in ebx, which
      becomes the child's pid; no other byte of memory changes. */
  lemma ForkDuplicates(k: Kernel, esp: nat, stack: nat, junk: PCB)
    requires Sane(k) && 0 <= k.current && |k.tasks| < MAX_TASKS
    requires InStack(k.tasks[k.current].stack, esp) && FreshStack(k, stack)
    ensures Duplicated(k.mem, k.tasks[k.current].stack, esp, stack, |k.tasks| + 1, Fork(k, esp, stack, junk).mem)
  {
    ForkMemoryIs(k, esp, stack, junk);
    MemoryDuplicates(k.mem, k.tasks[k.current].stack, esp, stack, |k.tasks| + 1);
  }

  /** Across a run: the parent resumes at once with the child's pid, which no task had before; whenever
      the child first gets the CPU it resumes at the twin of the parent's frame, and if nobody has written
      into its stack by then, in a twin of the parent's stack as it was at the call. */
  lemma ForkReturnsTwice(ss: seq<Kernel>, evs: seq<Event>, i: nat, j: nat)
    requires Run(ss, evs) && i < j < |ss|
    requires StepAt(ss, evs, i) && IsCall(ss[i], evs[i], 2)
    requires OffCpu(ss, i + 1, j, |ss[i].tasks|) && ss[j].current == |ss[i].tasks|
    ensures 0 <= ss[i].current < |ss[i].tasks| < MAX_TASKS
    ensures InStack(ss[i].tasks[ss[i].current].stack, evs[i].esp)
    ensures ss[i].tasks[ss[i].current].stack + STACK_SIZE <= |evs[i].mem|
    ensures evs[i].stack + STACK_SIZE <= |ss[j].mem| && evs[i].esp + FRAME_SIZE <= |ss[i + 1].mem|
    ensures var k, ev, n := ss[i], evs[i], |ss[i].tasks|;
            var parent := k.tasks[k.current].stack;
            && ss[i + 1].current == k.current && Resumed(ss, evs, i) == ev.esp
            && Load(ss[i + 1].mem, ev.esp + 4) == n + 1
            && (forall t :: 0 <= t < n ==> k.tasks[t].pcb.pid != n + 1)
            && Resumed(ss, evs, j - 1) == TwinFrame(ev.esp, parent, ev.stack)
            && n < |ss[j].tasks| && ss[j].tasks[n].pcb.pid == n + 1
            && ss[j].tasks[n].pcb.ppid == k.tasks[k.current].pcb.pid
            && (LeftAlone(ss, evs, i + 1, j, n) ==> Twin(ev.mem, parent, ev.esp, ss[j].mem, ev.stack))
  {
    var k, ev, n := ss[i], evs[i], |ss[i].tasks|;
    RunKeeps(ss, evs, i);
    var f := TwinFrame(ev.esp, k.tasks[k.current].stack, ev.stack);
    ForkLeaves(k, ev, ss[i + 1]);
    ResumesAtItsFrame(ss, evs, i + 1, j, n);
    TasksKeepStacks(ss, evs, i + 1, j);
    if LeftAlone(ss, evs, i + 1, j, n) {
      ResumesWhereParked(ss, evs, i + 1, j, n, f, ss[i + 1].mem);
      TwinSurvives(ev.mem, k.tasks[k.current].stack, ev.esp, ss[i + 1].mem, ss[j].mem, ev.stack);
    }
  }

  /** The entry that forks: the parent goes on, the child is parked at the twin of its frame. */
  lemma ForkLeaves(k: Kernel, ev: Event, k': Kernel)
    requires Inv(k) && Step(k, ev, k') && IsCall(k, ev, FORK_INT)
    ensures 0 <= k.current < |k.tasks| < MAX_TASKS && k'.current == k.current && Next(k, ev).frame == ev.esp
    ensures InStack(k.tasks[k.current].stack, ev.esp) && k.tasks[k.current].stack + STACK_SIZE <= |ev.mem|
    ensures ev.stack + STACK_SIZE <= |ev.mem| == |k'.mem|
    ensures var p, n := k.tasks[k.current], |k.tasks|;
            && Duplicated(ev.mem, p.stack, ev.esp, ev.stack, n + 1, k'.mem)
            && |k'.tasks| == n + 1 && Parked(k', n, TwinFrame(ev.esp, p.stack, ev.stack), k'.mem)
            && k'.tasks[n].stack == ev.stack && k'.tasks[n].pcb.state == READY
            && k'.tasks[n].pcb.pid == n + 1 && k'.tasks[n].pcb.ppid == p.pcb.pid
  {
    OtherEntries(k, ev, k');
    ForkTable(Entered(k, ev), ev.esp, ev.stack, ev.junk);
    ForkDuplicates(Entered(k, ev), ev.esp, ev.stack, ev.junk);
  }

  lemma TwinSurvives(m: Memory, parent: nat, esp: nat, m': Memory, m'': Memory, child: nat)
    requires parent + STACK_SIZE <= |m| && child + STACK_SIZE <= |m'| && InStack(parent, esp)
    requires Twin(m, parent, esp, m', child) && SameStack(m', m'', child)
    ensures Twin(m, parent, esp, m'', child)
  {
    assert StackBytes(m'', child) == StackBytes(m', child);
  }

  // ----- what fork does not relocate

  predicate WithinStack(base: nat, a: int) { base <= a < base + STACK_SIZE }

  /** Every word of the parent's stack above its frame is in the child's stack unchanged, also if it is an
      address: only the ebp in the frame itself is carried over. */
  lemma WordsAreNotRelocated(m: Memory, parent: nat, esp: nat, m': Memory, child: nat, b: nat)
    requires parent + STACK_SIZE <= |m| && child + STACK_SIZE <= |m'| && InStack(parent, esp)
    requires StackTwin(m, parent, esp, m', child) && esp + FRAME_SIZE <= b && b + 4 <= parent + STACK_SIZE
    ensures Load(m', child + (b - parent)) == Load(m, b)
  {
    var d := b - parent;
    TwinByte(m, parent, esp, m', child, d);
    TwinByte(m, parent, esp, m', child, d + 1);
    TwinByte(m, parent, esp, m', child, d + 2);
    TwinByte(m, parent, esp, m', child, d + 3);
  }

  lemma TwinByte(m: Memory, parent: nat, esp: nat, m': Memory, child: nat, d: nat)
    requires parent + STACK_SIZE <= |m| && child + STACK_SIZE <= |m'| && InStack(parent, esp)
    requires StackTwin(m, parent, esp, m', child) && d < STACK_SIZE && Untouched(esp - parent, d)
    ensures m'[child + d] == m[parent + d]
  {
    assert StackBytes(m', child)[d] == StackBytes(m, parent)[d];
  }

  /** The frame pointer a function saves on entry is at the address in ebp, and comes back on return. The
      child's ebp lies in its own stack, but the frame pointer it gets back on its first return is the
      parent's. So that lies in the parent's stack exactly when the parent's own does, and then not in the
      child's. */
  ghost predicate SharesFrame(m: Memory, parent: nat, esp: nat, m': Memory, child: nat)
    requires parent <= esp && esp + FRAME_SIZE <= |m| && TwinFrame(esp, parent, child) + FRAME_SIZE <= |m'|
  {
    var b, b' := Load(m, esp + EBP), Load(m', TwinFrame(esp, parent, child) + EBP);
    && b + 4 <= |m| && b' + 4 <= |m'|
    && WithinStack(child, b') && Load(m', b') == Load(m, b)
    && (WithinStack(parent, Load(m', b')) <==> WithinStack(parent, Load(m, b)))
    && (WithinStack(parent, Load(m, b)) ==> !WithinStack(child, Load(m', b')))
  }

  /** The address in the ebp of the frame at esp lies in the stack at base, above the frame. */
  ghost predicate FramePointerAbove(m: Memory, base: nat, esp: nat)
    requires esp + FRAME_SIZE <= |m|
  {
    esp + FRAME_SIZE <= Load(m, esp + EBP) && Load(m, esp + EBP) + 4 <= base + STACK_SIZE
  }

  lemma ChildReturnsToParentsFrame(m: Memory, parent: nat, esp: nat, m': Memory, child: nat)
    requires parent + STACK_SIZE <= |m| <= TWO32 && child + STACK_SIZE <= |m'| <= TWO32
    requires InStack(parent, esp) && Apart(parent, child) && Twin(m, parent, esp, m', child)
    requires FramePointerAbove(m, parent, esp)
    ensures SharesFrame(m, parent, esp, m', child)
  {
    WordsAreNotRelocated(m, parent, esp, m', child, Load(m, esp + EBP));
  }

  /** Across a run: when the child first gets the CPU, in a stack nobody else has written to, the frame
      pointer it will get back on its first return is the one its parent had there at the fork, so what it
      then writes to its local variables goes into its parent's stack exactly when the parent's would. */
  lemma ChildSharesParentsFrame(ss: seq<Kernel>, evs: seq<Event>, i: nat, j: nat)
    requires Run(ss, evs) && i < j < |ss|
    requires StepAt(ss, evs, i) && IsCall(ss[i], evs[i], 2)
    requires OffCpu(ss, i + 1, j, |ss[i].tasks|) && ss[j].current == |ss[i].tasks|
    requires LeftAlone(ss, evs, i + 1, j, |ss[i].tasks|)
    requires 0 <= ss[i].current < |ss[i].tasks|
    requires FramePointerAbove(evs[i].mem, ss[i].tasks[ss[i].current].stack, evs[i].esp)
    ensures var parent := ss[i].tasks[ss[i].current].stack;
            var f := TwinFrame(evs[i].esp, parent, evs[i].stack);
            && f == Resumed(ss, evs, j - 1) && f + FRAME_SIZE <= |ss[j].mem|
            && SharesFrame(evs[i].mem, parent, evs[i].esp, ss[j].mem, evs[i].stack)
  {
    var k, ev := ss[i], evs[i];
    RunKeeps(ss, evs, j);
    ForkReturnsTwice(ss, evs, i, j);
    assert Apart(Entered(k, ev).tasks[k.current].stack, ev.stack);
    ChildReturnsToParentsFrame(ev.mem, k.tasks[k.current].stack, ev.esp, ss[j].mem, ev.stack);
  }
}
