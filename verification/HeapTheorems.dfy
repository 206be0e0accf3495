/** What every sequence of malloc and free keeps, and why the layout depends only on what is live. */
module HeapTheorems {
  import opened Words
  import opened HeapLayouts

  // ----- consequences of tiling

  lemma {:induction false} Ordered(l: Layout, lo: nat, hi: nat, i: nat, j: nat)
    requires Tiles(l, lo, hi) && i < j < |l|
    ensures l[i].End() <= l[j].addr
  {
    if i + 1 < j { Ordered(l, lo, hi, i, j - 1); }
  }

  lemma ChunkBounds(l: Layout, lo: nat, hi: nat, i: nat)
    requires Tiles(l, lo, hi) && i < |l|
    ensures lo <= l[i].addr && l[i].End() <= hi
  {
    if i > 0 { Ordered(l, lo, hi, 0, i); }
    if i < |l| - 1 { Ordered(l, lo, hi, i, |l| - 1); }
  }

  lemma WellFormedInRange(l: Layout, start: nat, total: nat)
    requires WellFormed(l, start, total) && Addressable(start, total)
    ensures InRange(l)
  {
    forall c | c in l ensures 1 <= c.addr && c.End() <= TWO32 {
      var i: nat :| i < |l| && l[i] == c;
      ChunkBounds(l, start, start + total, i);
    }
  }

  lemma SameAddrSameIndex(l: Layout, lo: nat, hi: nat, i: nat, j: nat)
    requires Tiles(l, lo, hi) && i < |l| && j < |l| && l[i].addr == l[j].addr
    ensures i == j
  {
    if i < j { Ordered(l, lo, hi, i, j); }
    if j < i { Ordered(l, lo, hi, j, i); }
  }

  // ----- canonical layout

  lemma TailTiles(l: Layout, lo: nat, hi: nat)
    requires l != [] && Tiles(l, lo, hi)
    ensures Tiles(l[1..], l[0].End(), hi)
  {
  }

  lemma TailLive(l: Layout, lo: nat, hi: nat)
    requires l != [] && Tiles(l, lo, hi)
    ensures Live(l[1..]) == Live(l) - {l[0]}
  {
    forall c | c in Live(l[1..]) ensures c in Live(l) && c != l[0] {
      var i: nat :| i < |l[1..]| && l[1..][i] == c;
      assert c == l[i + 1];
      Ordered(l, lo, hi, 0, i + 1);
    }
    forall c | c in Live(l) && c != l[0] ensures c in Live(l[1..]) {
      var i: nat :| i < |l| && l[i] == c;
      assert c == l[1..][i - 1];
    }
  }

  /** If the first chunk of one coalesced tiling is free, no other with the same live chunks has a longer one. */
  lemma FreeHeadNotShorter(l: Layout, m: Layout, lo: nat, hi: nat)
    requires Tiles(l, lo, hi) && Tiles(m, lo, hi) && Coalesced(l)
    requires l != [] && m != [] && !l[0].used && !m[0].used
    requires Live(l) <= Live(m)
    ensures l[0].size >= m[0].size
  {
    if l[0].size < m[0].size {
      ChunkBounds(m, lo, hi, 0);
      assert |l| > 1;
      assert l[1] in Live(l) && l[1] in Live(m);
      var j: nat :| j < |m| && m[j] == l[1];
      if j > 0 { Ordered(m, lo, hi, 0, j); }
      assert false;
    }
  }

  lemma LiveHeadIsHead(l: Layout, m: Layout, lo: nat, hi: nat)
    requires Tiles(l, lo, hi) && Tiles(m, lo, hi) && l != [] && m != []
    requires l[0].used && Live(l) <= Live(m)
    ensures m[0] == l[0]
  {
    assert l[0] in Live(m);
    var j: nat :| j < |m| && m[j] == l[0];
    SameAddrSameIndex(m, lo, hi, 0, j);
  }

  /** Two coalesced tilings of one region with the same live chunks are the same layout. */
  lemma {:induction false} Canonical(l: Layout, m: Layout, lo: nat, hi: nat)
    requires Tiles(l, lo, hi) && Tiles(m, lo, hi)
    requires Coalesced(l) && Coalesced(m)
    requires Live(l) == Live(m)
    ensures l == m
  {
    if l == [] {
      if m != [] { ChunkBounds(m, lo, hi, 0); }
    } else if m == [] {
      ChunkBounds(l, lo, hi, 0);
    } else {
      if l[0].used {
        LiveHeadIsHead(l, m, lo, hi);
      } else if m[0].used {
        LiveHeadIsHead(m, l, lo, hi);
      } else {
        FreeHeadNotShorter(l, m, lo, hi);
        FreeHeadNotShorter(m, l, lo, hi);
      }
      TailTiles(l, lo, hi);
      TailTiles(m, lo, hi);
      TailLive(l, lo, hi);
      TailLive(m, lo, hi);
      Canonical(l[1..], m[1..], l[0].End(), hi);
      assert l == [l[0]] + l[1..] && m == [m[0]] + m[1..];
    }
  }

  lemma LayoutIsFunctionOfLive(l: Layout, m: Layout, start: nat, total: nat)
    requires WellFormed(l, start, total) && WellFormed(m, start, total)
    requires Live(l) == Live(m)
    ensures l == m
  {
    if total >= HEADER { Canonical(l, m, start, start + total); }
  }

  // ----- malloc

  /** Null exactly when no free chunk is strictly larger than the request; otherwise the fitting chunk
      of lowest address. */
  lemma MallocIsExactFirstFit(l: Layout, start: nat, total: nat, size: Word)
    requires WellFormed(l, start, total) && Addressable(start, total)
    ensures var (l', ptr) := Malloc(l, size);
            && (ptr == 0 <==> forall c :: c in l && !c.used ==> c.size <= size)
            && (ptr == 0 ==> l' == l)
            && (ptr != 0 ==> exists c :: (c in l && Fits(c, size) && c.Payload() == ptr
                             && forall d :: d in l && Fits(d, size) ==> c.addr <= d.addr))
  {
    WellFormedInRange(l, start, total);
    var i := FirstFit(l, size);
    if i == |l| {
    } else {
      var c := l[i];
      assert c in l && Fits(c, size);
      forall d | d in l && Fits(d, size) ensures c.addr <= d.addr {
        var j: nat :| j < |l| && l[j] == d;
        if i < j { Ordered(l, start, start + total, i, j); }
      }
    }
  }

  /** A successful malloc keeps the invariant and adds exactly one live chunk, which was not there before. */
  lemma MallocKeeps(l: Layout, start: nat, total: nat, size: Word)
    requires WellFormed(l, start, total) && Addressable(start, total)
    ensures var (l', ptr) := Malloc(l, size);
            && WellFormed(l', start, total)
            && (ptr == 0 ==> l' == l)
            && (ptr != 0 ==> && ptr > HEADER && !Holds(l, ptr)
                             && Live(l') == Live(l) + {Grant(l, size)} && Grant(l, size).Payload() == ptr
                             && size <= Grant(l, size).size <= size + HEADER
                             && exists c :: (c in l && Fits(c, size) && c.Payload() == ptr
                                  && Grant(l, size).size == if c.size > size + HEADER then size else c.size))
  {
    WellFormedInRange(l, start, total);
    var i := FirstFit(l, size);
    if i < |l| {
      var c := l[i];
      var (l', ptr) := Malloc(l, size);
      MallocAtWellFormed(l, start, total, i, size);
      MallocAtLive(l, start, total, i, size);
      if Holds(l, ptr) {
        SameAddrSameIndex(l, start, start + total, i, HeldAt(l, ptr));
      }
    }
  }

  lemma CutWellFormed(l: Layout, start: nat, total: nat, i: nat, c: Chunk, d: Chunk)
    requires WellFormed(l, start, total) && i < |l| && !l[i].used && c.used
    requires c.addr == l[i].addr && d.addr == c.End() && d.End() == l[i].End() && !d.used
    ensures WellFormed(Cut(l, i, c, d), start, total)
  {
    var l' := Cut(l, i, c, d);
    assert forall k :: 0 <= k < i ==> l'[k] == l[k];
    assert forall k :: i + 2 <= k < |l'| ==> l'[k] == l[k - 1];
    CutTiles(l, start, start + total, i, c, d);
  }

  lemma CutTiles(l: Layout, lo: nat, hi: nat, i: nat, c: Chunk, d: Chunk)
    requires Tiles(l, lo, hi) && i < |l|
    requires c.addr == l[i].addr && d.addr == c.End() && d.End() == l[i].End()
    ensures Tiles(Cut(l, i, c, d), lo, hi)
  {
    var l' := Cut(l, i, c, d);
    assert forall k :: 0 <= k < i ==> l'[k] == l[k];
    assert forall k :: i + 2 <= k < |l'| ==> l'[k] == l[k - 1];
  }

  lemma CutLive(l: Layout, i: nat, c: Chunk, d: Chunk)
    requires i < |l| && !l[i].used && c.used && !d.used
    ensures Live(Cut(l, i, c, d)) == Live(l) + {c}
  {
    var l' := Cut(l, i, c, d);
    forall x | x in Live(l') ensures x in Live(l) + {c} {
      assert x in l[..i] || x == c || x in l[i + 1..];
    }
    forall x | x in Live(l) + {c} ensures x in Live(l') {
      if x != c {
        var k: nat :| k < |l| && l[k] == x;
        assert l'[if k < i then k else k + 1] == x;
      } else {
        assert l'[i] == c;
      }
    }
  }

  lemma UseWellFormed(l: Layout, start: nat, total: nat, i: nat)
    requires WellFormed(l, start, total) && i < |l|
    ensures WellFormed(l[i := l[i].(used := true)], start, total)
  {
  }

  lemma MallocAtWellFormed(l: Layout, start: nat, total: nat, i: nat, size: Word)
    requires WellFormed(l, start, total) && i < |l| && Fits(l[i], size)
    ensures WellFormed(MallocAt(l, i, size), start, total)
  {
    var c := l[i];
    if c.size >= size + HEADER + 1 {
      CutWellFormed(l, start, total, i, Chunk(c.addr, size, true), Remainder(c, size));
    } else {
      UseWellFormed(l, start, total, i);
    }
  }

  /** The chunk malloc hands out. */
  ghost function Granted(c: Chunk, size: Word): Chunk {
    if c.size >= size + HEADER + 1 then Chunk(c.addr, size, true) else c.(used := true)
  }

  /** The chunk malloc hands out for a request, if any chunk fits. */
  ghost function Grant(l: Layout, size: Word): (c: Chunk) {
    var i := FirstFit(l, size);
    if i == |l| then Chunk(0, size, true) else Granted(l[i], size)
  }

  lemma MallocAtLive(l: Layout, start: nat, total: nat, i: nat, size: Word)
    requires WellFormed(l, start, total) && i < |l| && Fits(l[i], size)
    ensures Live(MallocAt(l, i, size)) == Live(l) + {Granted(l[i], size)}
    ensures size <= Granted(l[i], size).size <= size + HEADER
  {
    var c := l[i];
    if c.size >= size + HEADER + 1 {
      CutLive(l, i, Granted(c, size), Remainder(c, size));
    } else {
      UseLive(l, i);
    }
  }

  lemma UseLive(l: Layout, i: nat)
    requires i < |l| && !l[i].used
    ensures Live(l[i := l[i].(used := true)]) == Live(l) + {l[i].(used := true)}
  {
    var c, l' := l[i].(used := true), l[i := l[i].(used := true)];
    forall x | x in Live(l) + {c} ensures x in Live(l') {
      var k: nat :| k < |l| && (if x == c then k == i else l[k] == x);
      assert l'[k] == x;
    }
  }

  // ----- free

  /** Between clearing the flag and finishing, at most the pair (i, i + 1) may be two free neighbours. */
  ghost predicate CoalescedExcept(l: Layout, i: int) {
    forall j, k :: 0 <= j < k < |l| && k <= j + 1 && j != i ==> l[j].used || l[k].used
  }

  lemma MergeAtTiles(l: Layout, lo: nat, hi: nat, i: nat)
    requires Tiles(l, lo, hi) && i + 1 < |l| && !l[i].used && !l[i + 1].used
    ensures Tiles(MergeAt(l, i), lo, hi)
    ensures Live(MergeAt(l, i)) == Live(l)
  {
  }

  lemma MergeIfFreeCoalesces(l: Layout, lo: nat, hi: nat, i: nat)
    requires Tiles(l, lo, hi) && i < |l| && !l[i].used
    requires CoalescedExcept(l, i)
    ensures var m := MergeIfFree(l, i); m != [] && Tiles(m, lo, hi) && Coalesced(m) && Live(m) == Live(l)
  {
    if i + 1 < |l| && !l[i + 1].used {
      MergeAtTiles(l, lo, hi, i);
      var m := MergeAt(l, i);
      assert forall k :: 0 <= k < i ==> m[k] == l[k];
      assert forall k :: i < k < |m| ==> m[k] == l[k + 1];
      if i + 2 < |l| { assert l[i + 1].used || l[i + 2].used; }
    }
  }

  lemma ClearLive(l: Layout, lo: nat, hi: nat, i: nat)
    requires Tiles(l, lo, hi) && i < |l| && l[i].used
    ensures var m := l[i := l[i].(used := false)]; Tiles(m, lo, hi) && Live(m) == Live(l) - {l[i]}
  {
    var m := l[i := l[i].(used := false)];
    forall c | c in Live(m) ensures c in Live(l) && c != l[i] {
      var k: nat :| k < |m| && m[k] == c;
      assert k != i && l[k] == c;
      if c == l[i] { SameAddrSameIndex(l, lo, hi, i, k); }
    }
    forall c | c in Live(l) && c != l[i] ensures c in Live(m) {
      var k: nat :| k < |l| && l[k] == c;
      assert m[k] == c;
    }
  }

  /** After chunk i has been absorbed by its free left neighbour, only the pair at their place may still coalesce. */
  lemma MergedLeft(l: Layout, i: nat)
    requires Coalesced(l) && 0 < i < |l| && !l[i - 1].used
    ensures var m := MergeAt(l[i := l[i].(used := false)], i - 1);
            i - 1 < |m| && !m[i - 1].used && CoalescedExcept(m, i - 1)
  {
  }

  lemma FreeAtKeeps(l: Layout, start: nat, total: nat, i: nat)
    requires WellFormed(l, start, total) && i < |l| && l[i].used
    ensures WellFormed(FreeAt(l, i), start, total)
    ensures Live(FreeAt(l, i)) == Live(l) - {l[i]}
  {
    var hi := start + total;
    var cleared := l[i := l[i].(used := false)];
    ClearLive(l, start, hi, i);
    if i > 0 && !l[i - 1].used {
      MergeAtTiles(cleared, start, hi, i - 1);
      MergedLeft(l, i);
      MergeIfFreeCoalesces(MergeAt(cleared, i - 1), start, hi, i - 1);
    } else {
      assert CoalescedExcept(cleared, i);
      MergeIfFreeCoalesces(cleared, start, hi, i);
    }
  }

  lemma FreeKeeps(l: Layout, start: nat, total: nat, ptr: nat)
    requires WellFormed(l, start, total) && Holds(l, ptr)
    ensures WellFormed(Free(l, ptr), start, total)
    ensures Live(Free(l, ptr)) == Live(l) - {l[HeldAt(l, ptr)]}
    ensures forall c :: c in Live(Free(l, ptr)) <==> c in Live(l) && c.Payload() != ptr
  {
    var i := HeldAt(l, ptr);
    FreeAtKeeps(l, start, total, i);
    forall c | c in Live(l) && c.Payload() == ptr ensures c == l[i] {
      var k: nat :| k < |l| && l[k] == c;
      SameAddrSameIndex(l, start, start + total, i, k);
    }
  }

  // ----- laws

  /** Freeing what malloc just returned restores the layout exactly. */
  lemma FreeUndoesMalloc(l: Layout, start: nat, total: nat, size: Word)
    requires WellFormed(l, start, total) && Addressable(start, total)
    ensures var (l', ptr) := Malloc(l, size); ptr != 0 ==> Holds(l', ptr) && Free(l', ptr) == l
  {
    MallocKeeps(l, start, total, size);
    var (l', ptr) := Malloc(l, size);
    if ptr != 0 {
      assert Grant(l, size) in Live(l');
      assert Holds(l', ptr);
      FreeKeeps(l', start, total, ptr);
      assert Live(Free(l', ptr)) == Live(l);
      LayoutIsFunctionOfLive(Free(l', ptr), l, start, total);
    }
  }

  /** Distinct live pointers may be freed one after the other. */
  ghost predicate Freeable(l: Layout, ptrs: seq<nat>) {
    && (forall p :: p in ptrs ==> Holds(l, p))
    && (forall i, j :: 0 <= i < j < |ptrs| ==> ptrs[i] != ptrs[j])
  }

  lemma FreeableTail(l: Layout, start: nat, total: nat, ptrs: seq<nat>)
    requires WellFormed(l, start, total) && Freeable(l, ptrs) && ptrs != []
    ensures Freeable(Free(l, ptrs[0]), ptrs[1..])
  {
    FreeKeeps(l, start, total, ptrs[0]);
    var m := Free(l, ptrs[0]);
    forall p | p in ptrs[1..] ensures Holds(m, p) {
      assert p in ptrs && Holds(l, p);
      var c :| c in l && c.used && c.Payload() == p;
      var k: nat :| k < |ptrs[1..]| && ptrs[1..][k] == p;
      assert ptrs[k + 1] == p && ptrs[0] != ptrs[k + 1];
      assert c in Live(l);
      assert c in Live(m);
    }
  }

  ghost function FreeAll(l: Layout, start: nat, total: nat, ptrs: seq<nat>): Layout
    requires WellFormed(l, start, total) && Freeable(l, ptrs)
    decreases |ptrs|
  {
    if ptrs == [] then l
    else
      FreeKeeps(l, start, total, ptrs[0]);
      FreeableTail(l, start, total, ptrs);
      FreeAll(Free(l, ptrs[0]), start, total, ptrs[1..])
  }

  lemma {:induction false} FreeAllLive(l: Layout, start: nat, total: nat, ptrs: seq<nat>)
    requires WellFormed(l, start, total) && Freeable(l, ptrs)
    ensures var m := FreeAll(l, start, total, ptrs);
            && WellFormed(m, start, total)
            && (forall c :: c in Live(m) <==> c in Live(l) && c.Payload() !in ptrs)
    decreases |ptrs|
  {
    if ptrs != [] {
      FreeKeeps(l, start, total, ptrs[0]);
      FreeableTail(l, start, total, ptrs);
      FreeAllLive(Free(l, ptrs[0]), start, total, ptrs[1..]);
      assert forall p :: p in ptrs <==> p == ptrs[0] || p in ptrs[1..];
    }
  }

  /** Frees commute: freeing the same pointers in any two orders gives the same layout. */
  lemma FreesCommute(l: Layout, start: nat, total: nat, ptrs: seq<nat>, qtrs: seq<nat>)
    requires WellFormed(l, start, total) && Freeable(l, ptrs) && Freeable(l, qtrs)
    requires forall p :: p in ptrs <==> p in qtrs
    ensures FreeAll(l, start, total, ptrs) == FreeAll(l, start, total, qtrs)
  {
    FreeAllLive(l, start, total, ptrs);
    FreeAllLive(l, start, total, qtrs);
    assert Live(FreeAll(l, start, total, ptrs)) == Live(FreeAll(l, start, total, qtrs));
    LayoutIsFunctionOfLive(FreeAll(l, start, total, ptrs), FreeAll(l, start, total, qtrs), start, total);
  }

  /** Freeing everything, in any order, leaves the single initial chunk. */
  lemma FullRecovery(l: Layout, start: nat, total: nat, ptrs: seq<nat>)
    requires WellFormed(l, start, total) && Freeable(l, ptrs)
    requires forall c :: c in Live(l) ==> c.Payload() in ptrs
    ensures FreeAll(l, start, total, ptrs) == Initial(start, total)
  {
    FreeAllLive(l, start, total, ptrs);
    assert Live(FreeAll(l, start, total, ptrs)) == {};
    assert Live(Initial(start, total)) == {};
    LayoutIsFunctionOfLive(FreeAll(l, start, total, ptrs), Initial(start, total), start, total);
  }
}
