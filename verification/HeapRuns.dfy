/** Whole runs of the heap: any sequence of requests, and frees of pointers then held. */
module HeapRuns {
  import opened Words
  import opened HeapLayouts
  import opened HeapTheorems

  datatype Op = Alloc(size: Word) | Release(ptr: nat)

  /** The layout together with what each live pointer was requested for. */
  datatype Heap = Heap(layout: Layout, requested: map<nat, Word>)

  function Boot(start: nat, total: nat): Heap { Heap(Initial(start, total), map[]) }

  ghost predicate Enabled(h: Heap, op: Op) { op.Release? ==> Holds(h.layout, op.ptr) }

  ghost function Apply(h: Heap, op: Op): Heap
    requires Enabled(h, op)
  {
    match op
    case Alloc(size) =>
      var (l, ptr) := Malloc(h.layout, size);
      if ptr == 0 then h else Heap(l, h.requested[ptr := size])
    case Release(ptr) =>
      Heap(Free(h.layout, ptr), h.requested - {ptr})
  }

  ghost predicate Legal(h: Heap, ops: seq<Op>)
    decreases |ops|
  {
    ops == [] || (Enabled(h, ops[0]) && Legal(Apply(h, ops[0]), ops[1..]))
  }

  ghost function Exec(h: Heap, ops: seq<Op>): Heap
    requires Legal(h, ops)
    decreases |ops|
  {
    if ops == [] then h else Exec(Apply(h, ops[0]), ops[1..])
  }

  /** Every live chunk was requested, with at most one header's worth of slack, and conversely. */
  ghost predicate Accounted(h: Heap) {
    && (forall c :: c in Live(h.layout) ==>
          c.Payload() in h.requested && h.requested[c.Payload()] <= c.size <= h.requested[c.Payload()] + HEADER)
    && (forall p :: p in h.requested ==> Holds(h.layout, p))
  }

  ghost predicate Invariant(h: Heap, start: nat, total: nat) {
    WellFormed(h.layout, start, total) && Accounted(h)
  }

  lemma ApplyKeeps(h: Heap, op: Op, start: nat, total: nat)
    requires Invariant(h, start, total) && Addressable(start, total) && Enabled(h, op)
    ensures Invariant(Apply(h, op), start, total)
  {
    match op
    case Alloc(size) =>
      MallocKeeps(h.layout, start, total, size);
      if Malloc(h.layout, size).1 != 0 { AllocAccounted(h, size, start, total); }
    case Release(ptr) =>
      FreeKeeps(h.layout, start, total, ptr);
      ReleaseAccounted(h, ptr, start, total);
  }

  lemma ReleaseAccounted(h: Heap, ptr: nat, start: nat, total: nat)
    requires Invariant(h, start, total) && Addressable(start, total) && Holds(h.layout, ptr)
    ensures Accounted(Apply(h, Release(ptr)))
  {
    FreeKeeps(h.layout, start, total, ptr);
    var h' := Apply(h, Release(ptr));
    forall p | p in h'.requested ensures Holds(h'.layout, p) {
      assert p in h.requested && Holds(h.layout, p);
      var c :| c in h.layout && c.used && c.Payload() == p;
      assert c in Live(h.layout);
      assert c in Live(h'.layout);
    }
  }

  lemma AllocAccounted(h: Heap, size: Word, start: nat, total: nat)
    requires Invariant(h, start, total) && Addressable(start, total)
    requires Malloc(h.layout, size).1 != 0
    ensures Accounted(Apply(h, Alloc(size)))
  {
    MallocKeeps(h.layout, start, total, size);
    var h' := Apply(h, Alloc(size));
    var ptr := Malloc(h.layout, size).1;
    forall c | c in Live(h'.layout)
      ensures c.Payload() in h'.requested && h'.requested[c.Payload()] <= c.size <= h'.requested[c.Payload()] + HEADER
    {
      if c in Live(h.layout) {
        assert Holds(h.layout, c.Payload());
      }
    }
    forall p | p in h'.requested ensures Holds(h'.layout, p) {
      var c: Chunk;
      if p == ptr { c := Grant(h.layout, size); }
      else {
        assert p in h.requested && Holds(h.layout, p);
        c :| c in h.layout && c.used && c.Payload() == p;
        assert c in Live(h.layout);
      }
      assert c in Live(h'.layout);
    }
  }

  lemma {:induction false} RunKeeps(h: Heap, ops: seq<Op>, start: nat, total: nat)
    requires Invariant(h, start, total) && Addressable(start, total) && Legal(h, ops)
    ensures Invariant(Exec(h, ops), start, total)
    decreases |ops|
  {
    if ops != [] {
      ApplyKeeps(h, ops[0], start, total);
      RunKeeps(Apply(h, ops[0]), ops[1..], start, total);
    }
  }

  /** After any run the invariant holds. */
  lemma HeapInvariant(start: nat, total: nat, ops: seq<Op>)
    requires Addressable(start, total) && Legal(Boot(start, total), ops)
    ensures Invariant(Exec(Boot(start, total), ops), start, total)
  {
    assert Live(Initial(start, total)) == {};
    RunKeeps(Boot(start, total), ops, start, total);
  }

  /** After any run each held pointer owns the bytes it asked for: in bounds, behind its own header,
      and apart from the header and the bytes of every other held pointer. */
  lemma PayloadsAreSeparate(start: nat, total: nat, ops: seq<Op>, p: nat, q: nat)
    requires Addressable(start, total) && Legal(Boot(start, total), ops)
    requires var r := Exec(Boot(start, total), ops).requested; p in r && q in r && p != q
    ensures var r := Exec(Boot(start, total), ops).requested;
            && start + HEADER <= p && p + r[p] <= start + total
            && (p + r[p] <= q - HEADER || q + r[q] <= p - HEADER)
  {
    HeapInvariant(start, total, ops);
    var h := Exec(Boot(start, total), ops);
    var i, j := HeldAt(h.layout, p), HeldAt(h.layout, q);
    assert h.layout[i] in Live(h.layout) && h.layout[j] in Live(h.layout);
    ChunkBounds(h.layout, start, start + total, i);
    if i < j { Ordered(h.layout, start, start + total, i, j); }
    if j < i { Ordered(h.layout, start, start + total, j, i); }
  }

  /** Two runs that end with the same live chunks end with the same layout, whatever their histories. */
  lemma HistoryDoesNotMatter(start: nat, total: nat, ops: seq<Op>, ops': seq<Op>)
    requires Addressable(start, total) && Legal(Boot(start, total), ops) && Legal(Boot(start, total), ops')
    requires Live(Exec(Boot(start, total), ops).layout) == Live(Exec(Boot(start, total), ops').layout)
    ensures Exec(Boot(start, total), ops).layout == Exec(Boot(start, total), ops').layout
  {
    HeapInvariant(start, total, ops);
    HeapInvariant(start, total, ops');
    LayoutIsFunctionOfLive(Exec(Boot(start, total), ops).layout, Exec(Boot(start, total), ops').layout, start, total);
  }

  /** A run after which nothing is held has given everything back. */
  lemma NothingLeaks(start: nat, total: nat, ops: seq<Op>)
    requires Addressable(start, total) && Legal(Boot(start, total), ops)
    requires Exec(Boot(start, total), ops).requested == map[]
    ensures Exec(Boot(start, total), ops).layout == Initial(start, total)
  {
    HeapInvariant(start, total, ops);
    var h := Exec(Boot(start, total), ops);
    assert Live(h.layout) == {};
    assert Live(Initial(start, total)) == {};
    LayoutIsFunctionOfLive(h.layout, Initial(start, total), start, total);
  }
}
