/** Physical memory as bytes, and the saved register frame as it lies there. */
module Machine {
  import opened Words

  type Memory = seq<Byte>

  const STACK_SIZE := 4096

  /** Byte offsets of the packed CPUState record, and its size. */
  const EAX := 0
  const EBX := 4
  const ECX := 8
  const EDX := 12
  const ESI := 16
  const EDI := 20
  const EBP := 24
  const EIP := 32
  const CS := 36
  const EFLAGS := 40
  const ESP := 44
  const FRAME_SIZE := 52

  /** r is m with the word w at address a and no other byte changed. */
  ghost predicate IsStore(m: Memory, a: nat, w: Word, r: Memory)
    requires a + 4 <= |m|
  {
    && |r| == |m| && Load(r, a) == w
    && forall i :: 0 <= i < |m| && !(a <= i < a + 4) ==> r[i] == m[i]
  }

  ghost function Store(m: Memory, a: nat, w: Word): (r: Memory)
    requires a + 4 <= |m|
    ensures IsStore(m, a, w, r)
  {
    StoreExists(m, a, w);
    var r :| IsStore(m, a, w, r);
    r
  }

  lemma StoreExists(m: Memory, a: nat, w: Word)
    requires a + 4 <= |m|
    ensures exists r :: IsStore(m, a, w, r)
  {
    BytesRoundTrip(w);
    var r := m[a := ByteAt(w, 0)][a + 1 := ByteAt(w, 1)][a + 2 := ByteAt(w, 2)][a + 3 := ByteAt(w, 3)];
    assert IsStore(m, a, w, r);
  }

  lemma StoreUnique(m: Memory, a: nat, w: Word, r: Memory)
    requires a + 4 <= |m| && IsStore(m, a, w, r)
    ensures r == Store(m, a, w)
  {
    var s := Store(m, a, w);
    BytesInjective(r[a], r[a + 1], r[a + 2], r[a + 3], s[a], s[a + 1], s[a + 2], s[a + 3]);
    assert forall i :: 0 <= i < |m| && a <= i < a + 4 ==> r[i] == s[i];
  }

  /** A frame at address f lies in the stack that starts at base. */
  predicate InStack(base: nat, f: nat) { base <= f && f + FRAME_SIZE <= base + STACK_SIZE }

  /** Two stacks share no byte. */
  predicate Apart(base: nat, other: nat) { base + STACK_SIZE <= other || other + STACK_SIZE <= base }

  /** The stack bytes of a task. */
  function StackBytes(m: Memory, base: nat): seq<Byte>
    requires base + STACK_SIZE <= |m|
  {
    m[base..base + STACK_SIZE]
  }

  /** r is m with the stack at from copied over the one at to and no other byte changed. */
  ghost predicate IsCopy(m: Memory, from: nat, to: nat, r: Memory)
    requires from + STACK_SIZE <= |m| && to + STACK_SIZE <= |m|
  {
    && |r| == |m|
    && (forall a :: to <= a < to + STACK_SIZE ==> r[a] == m[from + (a - to)])
    && (forall a :: 0 <= a < |m| && !(to <= a < to + STACK_SIZE) ==> r[a] == m[a])
  }

  ghost function CopyStack(m: Memory, from: nat, to: nat): (r: Memory)
    requires from + STACK_SIZE <= |m| && to + STACK_SIZE <= |m|
    ensures IsCopy(m, from, to, r)
  {
    CopyExists(m, from, to);
    var r :| IsCopy(m, from, to, r);
    r
  }

  lemma CopyExists(m: Memory, from: nat, to: nat)
    requires from + STACK_SIZE <= |m| && to + STACK_SIZE <= |m|
    ensures exists r :: IsCopy(m, from, to, r)
  {
    assert IsCopy(m, from, to, m[..to] + StackBytes(m, from) + m[to + STACK_SIZE..]);
  }

  lemma CopyUnique(m: Memory, from: nat, to: nat, r: Memory)
    requires from + STACK_SIZE <= |m| && to + STACK_SIZE <= |m| && IsCopy(m, from, to, r)
    ensures r == CopyStack(m, from, to)
  {
  }

  lemma LoadSame(m: Memory, m': Memory, a: nat)
    requires a + 4 <= |m| == |m'| && forall i :: a <= i < a + 4 ==> m'[i] == m[i]
    ensures Load(m', a) == Load(m, a)
  {
  }

  method StoreWord(mem: array<Byte>, a: nat, w: Word)
    requires a + 4 <= mem.Length
    modifies mem
    ensures mem[..] == Store(old(mem[..]), a, w)
  {
    ghost var m := mem[..];
    mem[a], mem[a + 1], mem[a + 2], mem[a + 3] := ByteAt(w, 0), ByteAt(w, 1), ByteAt(w, 2), ByteAt(w, 3);
    BytesRoundTrip(w);
    assert Load(mem[..], a) == FromBytes(mem[a], mem[a + 1], mem[a + 2], mem[a + 3]);
    StoreUnique(m, a, w, mem[..]);
  }

  method LoadWord(mem: array<Byte>, a: nat) returns (w: Word)
    requires a + 4 <= mem.Length
    ensures w == Load(mem[..], a)
  {
    w := FromBytes(mem[a], mem[a + 1], mem[a + 2], mem[a + 3]);
  }
}
