/** The allocator itself: chunk headers linked in both directions and relinked in place. */
module MemoryManagers {
  import opened Words
  import opened HeapLayouts
  import opened HeapTheorems

  class MemoryChunk {
    const addr: nat
    var next: MemoryChunk?
    var prev: MemoryChunk?
    var used: bool
    var size: Word

    constructor (addr: nat)
      ensures this.addr == addr
    {
      this.addr := addr;
    }

    ghost function Follower(): set<MemoryChunk>
      reads this
    {
      if next == null then {} else {next}
    }

    function View(): Chunk
      reads this
    {
      Chunk(addr, size, used)
    }
  }

  class MemoryManager {
    var first: MemoryChunk?
    /** The header found at an address: what the source obtains by casting a number to a pointer. */
    var headerAt: map<nat, MemoryChunk>
    ghost var chunks: seq<MemoryChunk>
    /** The abstract value: what the chunks hold, in address order. */
    ghost var layout: Layout
    ghost const start: nat
    ghost const total: nat

    /** `first`, `next` and `prev` thread exactly the chunks, in order; casts find them; layout shows them. */
    ghost predicate Linked()
      reads this, chunks
    {
      && first == (if chunks == [] then null else chunks[0])
      && |layout| == |chunks|
      && (forall i {:trigger layout[i]} {:trigger chunks[i].View()} :: 0 <= i < |chunks| ==>
            layout[i] == chunks[i].View())
      && (forall i, j :: 0 <= i < j < |chunks| ==> chunks[i] != chunks[j])
      && (forall i :: 0 <= i < |chunks| ==> chunks[i].addr in headerAt && headerAt[chunks[i].addr] == chunks[i])
      && Threaded(chunks)
    }

    ghost predicate Valid()
      reads this, chunks
    {
      Linked() && Addressable(start, total) && WellFormed(layout, start, total)
    }

    constructor (start: Word, size: Word)
      requires Addressable(start, size)
      ensures Valid() && this.start == start && this.total == size && fresh(chunks)
      ensures layout == if size < 16 then [] else [Chunk(start, size - 16, false)]
    {
      this.start, this.total := start, size;
      first, headerAt, chunks, layout := null, map[], [], [];
      new;
      if size >= HEADER {
        first := new MemoryChunk(start);
        headerAt := headerAt[start as nat := first];
        first.used := false;
        first.prev := null;
        first.next := null;
        first.size := size - HEADER;
        chunks := [first];
        layout := [first.View()];
      }
      InitialWellFormed(start, size);
    }

    method Malloc(size: Word) returns (ptr: nat)
      requires Valid()
      modifies this, chunks
      ensures Valid() && forall c :: c in chunks && c !in old(chunks) ==> fresh(c)
      ensures (layout, ptr) == HeapLayouts.Malloc(old(layout), size)
    {
      var result := FindFit(size);
      if result == null {
        return 0;
      }
      ghost var i := FirstFit(layout, size);
      AllocationIsSound(layout, start, total, i, size);
      Take(result, size, i);
      ptr := result.addr + HEADER;
    }

    /** The search loop: the first chunk that fits, or null. */
    method FindFit(size: Word) returns (result: MemoryChunk?)
      requires Linked()
      ensures var i := FirstFit(layout, size);
              if i == |chunks| then result == null else result == chunks[i]
    {
      result := null;
      var chunk := first;
      ghost var i := 0;
      while chunk != null && result == null
        invariant 0 <= i <= |chunks|
        invariant i < |chunks| ==> chunk == chunks[i]
        invariant i == |chunks| ==> chunk == null
        invariant forall j :: 0 <= j < i && !(result != null && j == i - 1) ==> !Fits(layout[j], size)
        invariant result != null ==> i > 0 && result == chunks[i - 1] && Fits(layout[i - 1], size)
        decreases |chunks| - i
      {
        assert layout[i] == chunks[i].View();
        assert i + 1 < |chunks| ==> chunks[i].next == chunks[i + 1];
        if chunk.size > size && !chunk.used {
          result := chunk;
        }
        chunk := chunk.next;
        i := i + 1;
      }
      FirstFitUnique(layout, size, if result == null then i else i - 1);
    }

    /** Allocate from chunk i, splitting it when the remainder can hold a header and a byte. */
    method Take(result: MemoryChunk, size: Word, ghost i: nat)
      requires Linked() && i < |chunks| && result == chunks[i]
      requires NothingWraps(layout, i, size)
      modifies this, chunks
      ensures Linked() && forall c :: c in chunks && c !in old(chunks) ==> fresh(c)
      ensures layout == MallocAt(old(layout), i, size)
    {
      ghost var l := layout;
      assert l[i] == chunks[i].View();
      if result.size >= Wrap(size + HEADER + 1) {
        var temp := SplitOff(result, size, i);
        assert chunks[i] == result;
      }
      SetUsed(result, true, i);
      assert layout == MallocAt(l, i, size);
    }

    method SplitOff(result: MemoryChunk, size: Word, ghost i: nat) returns (temp: MemoryChunk)
      requires Linked() && i < |chunks| && result == chunks[i]
      requires NothingWraps(layout, i, size) && result.size >= size + HEADER + 1
      modifies this, chunks
      ensures Linked() && fresh(temp) && chunks == old(chunks[..i + 1] + [temp] + chunks[i + 1..])
      ensures layout == SplitAt(old(layout), i, size)
    {
      assert layout[i] == chunks[i].View();
      temp := new MemoryChunk(Wrap(result.addr + HEADER + size));
      temp.used := false;
      temp.size := Wrap(result.size - size - HEADER);
      temp.prev := result;
      temp.next := result.next;
      LinkBehind(result, temp, i, size);
    }

    method SetUsed(chunk: MemoryChunk, used: bool, ghost i: nat)
      requires Linked() && i < |chunks| && chunk == chunks[i]
      modifies this`layout, chunk`used
      ensures Linked() && layout == old(layout)[i := old(layout)[i].(used := used)] && chunk.used == used
    {
      assert layout[i] == chunks[i].View();
      chunk.used := used;
      layout := layout[i := layout[i].(used := used)];
    }

    /** Cut a chunk down to size and link an already filled-in remainder behind it. */
    method LinkBehind(result: MemoryChunk, temp: MemoryChunk, ghost i: nat, size: Word)
      requires Linked() && i < |chunks| && result == chunks[i] && temp !in chunks
      requires result.size >= size + HEADER && SplitHeaderIsNew(layout, i, size)
      requires temp.next == result.next && temp.prev == result && temp.View() == Remainder(result.View(), size)
      modifies this, chunks
      ensures Linked()
      ensures chunks == old(chunks[..i + 1] + [temp] + chunks[i + 1..])
      ensures layout == SplitAt(old(layout), i, size)
    {
      ghost var cs, l := chunks, layout;
      assert i + 1 < |cs| ==> temp.next == cs[i + 1];
      assert forall k {:trigger cs[k].addr} :: 0 <= k < |cs| ==> l[k].addr == cs[k].addr;
      assert l[i] == cs[i].View();
      headerAt := headerAt[temp.addr := temp];
      assert i + 1 < |cs| ==> cs[i + 1] != cs[i];
      Relink(result, temp, size);
      chunks := cs[..i + 1] + [temp] + cs[i + 1..];
      layout := SplitAt(l, i, size);
      Inserted(cs, l, i, temp, size);
    }

    /** The pointer writes of a split, once the new chunk has been filled in. */
    static method Relink(result: MemoryChunk, temp: MemoryChunk, size: Word)
      requires temp.next != result && temp != result
      modifies temp.Follower()`prev, result`size, result`next
      ensures result.size == size && result.next == temp && (temp.next != null ==> temp.next.prev == temp)
    {
      if temp.next != null {
        temp.next.prev := temp;
      }
      result.size := size;
      result.next := temp;
    }

    /** What linking a new chunk behind chunk i looks like. */
    lemma Inserted(cs: seq<MemoryChunk>, l: Layout, i: nat, temp: MemoryChunk, size: nat)
      requires i < |cs| == |l| && chunks == cs[..i + 1] + [temp] + cs[i + 1..]
      requires first == cs[0] && temp !in cs
      requires forall j, k :: 0 <= j < k < |cs| ==> cs[j] != cs[k]
      requires forall k :: 0 <= k < |cs| ==> cs[k].addr in headerAt && headerAt[cs[k].addr] == cs[k]
      requires temp.addr in headerAt && headerAt[temp.addr] == temp
      requires l[i].size >= size + HEADER && layout == SplitAt(l, i, size)
      requires forall k {:trigger l[k]} {:trigger cs[k].View()} :: 0 <= k < |cs| && k != i ==> l[k] == cs[k].View()
      requires cs[i].View() == l[i].(size := size) && temp.View() == Remainder(l[i], size)
      requires cs[0].prev == null && (i + 1 < |cs| ==> cs[|cs| - 1].next == null)
      requires forall k {:trigger cs[k].next} :: 0 <= k < |cs| - 1 && k != i ==> cs[k].next == cs[k + 1]
      requires forall k {:trigger cs[k].prev} :: 0 < k < |cs| && k != i + 1 ==> cs[k].prev == cs[k - 1]
      requires cs[i].next == temp && temp.prev == cs[i]
      requires temp.next == if i + 1 < |cs| then cs[i + 1] else null
      requires i + 1 < |cs| ==> cs[i + 1].prev == temp
      ensures Linked()
    {
    }

    /** Splice a chunk out and give its bytes to its left neighbour. */
    method AbsorbIntoPrev(chunk: MemoryChunk, ghost i: nat)
      requires Linked() && i + 1 < |chunks| && chunk == chunks[i + 1]
      requires layout[i].size + layout[i + 1].size + HEADER < TWO32
      modifies this, chunks
      ensures Linked() && chunks == old(chunks[..i + 1] + chunks[i + 2..])
      ensures forall c :: c in chunks ==> c in old(chunks)
      ensures layout == MergeAt(old(layout), i)
    {
      ghost var cs, l := chunks, layout;
      assert cs[i + 1].prev == cs[i];
      assert i + 2 < |cs| ==> cs[i + 1].next == cs[i + 2];
      assert l[i] == cs[i].View() && l[i + 1] == cs[i + 1].View();
      chunk.prev.next := chunk.next;
      chunk.prev.size := chunk.prev.size + chunk.size + HEADER;
      if chunk.next != null {
        chunk.next.prev := chunk.prev;
      }
      chunks := cs[..i + 1] + cs[i + 2..];
      layout := MergeAt(l, i);
      Spliced(cs, l, i);
    }

    /** Splice out the right neighbour of a chunk and take its bytes. */
    method AbsorbNext(chunk: MemoryChunk, ghost i: nat)
      requires Linked() && i + 1 < |chunks| && chunk == chunks[i]
      requires layout[i].size + layout[i + 1].size + HEADER < TWO32
      modifies this, chunks
      ensures Linked() && chunks == old(chunks[..i + 1] + chunks[i + 2..])
      ensures forall c :: c in chunks ==> c in old(chunks)
      ensures layout == MergeAt(old(layout), i)
    {
      ghost var cs, l := chunks, layout;
      assert cs[i].next == cs[i + 1];
      assert i + 2 < |cs| ==> cs[i + 1].next == cs[i + 2];
      assert l[i] == cs[i].View() && l[i + 1] == cs[i + 1].View();
      chunk.size := chunk.size + chunk.next.size + HEADER;
      chunk.next := chunk.next.next;
      if chunk.next != null {
        chunk.next.prev := chunk;
      }
      chunks := cs[..i + 1] + cs[i + 2..];
      layout := MergeAt(l, i);
      Spliced(cs, l, i);
    }

    /** What a splice of chunk i + 1 looks like, whichever neighbour performed it. */
    lemma Spliced(cs: seq<MemoryChunk>, l: Layout, i: nat)
      requires i + 1 < |cs| == |l| && chunks == cs[..i + 1] + cs[i + 2..] && layout == MergeAt(l, i)
      requires first == cs[0]
      requires forall j, k :: 0 <= j < k < |cs| ==> cs[j] != cs[k]
      requires forall k :: 0 <= k < |cs| ==> cs[k].addr in headerAt && headerAt[cs[k].addr] == cs[k]
      requires forall k {:trigger l[k]} {:trigger cs[k].View()} :: 0 <= k < |cs| && k != i ==> l[k] == cs[k].View()
      requires cs[i].View() == l[i].(size := l[i].size + l[i + 1].size + HEADER)
      requires cs[0].prev == null && (i + 2 < |cs| ==> cs[|cs| - 1].next == null)
      requires forall k {:trigger cs[k].next} :: 0 <= k < |cs| - 1 && k != i && k != i + 1 ==> cs[k].next == cs[k + 1]
      requires forall k {:trigger cs[k].prev} :: 0 < k < |cs| && k != i + 1 && k != i + 2 ==> cs[k].prev == cs[k - 1]
      requires cs[i].next == if i + 2 < |cs| then cs[i + 2] else null
      requires i + 2 < |cs| ==> cs[i + 2].prev == cs[i]
      ensures Linked()
    {
    }

    method Free(ptr: nat)
      requires Valid() && Holds(layout, ptr)
      modifies this, chunks
      ensures Valid() && (forall c :: c in chunks ==> c in old(chunks))
      ensures layout == HeapLayouts.Free(old(layout), ptr)
    {
      ghost var i := HeldAt(layout, ptr);
      FreeAtKeeps(layout, start, total, i);
      MergedSizesFit(layout, start, total, i);
      assert chunks[i].View() == layout[i];
      var chunk := headerAt[ptr - HEADER];
      Release(chunk, i);
    }

    /** The body of `free` once the header is found. */
    method Release(header: MemoryChunk, ghost at: nat)
      requires Linked() && at < |chunks| && header == chunks[at]
      requires SizesFit(layout, at)
      modifies this, chunks
      ensures Linked() && (forall c :: c in chunks ==> c in old(chunks))
      ensures layout == FreeAt(old(layout), at)
    {
      SetUsed(header, false, at);
      if at > 0 {
        assert header.prev == chunks[at - 1] && chunks[at - 1].View() == layout[at - 1];
      }
      if header.prev != null && !header.prev.used {
        AbsorbBothSides(header, at - 1);
      } else {
        AbsorbNextIfFree(header, at);
      }
    }

    /** Into the free left neighbour first, then that takes in a free right neighbour. */
    method AbsorbBothSides(header: MemoryChunk, ghost i: nat)
      requires Linked() && i + 1 < |chunks| && header == chunks[i + 1]
      requires layout[i].size + layout[i + 1].size + HEADER < TWO32
      requires i + 2 < |layout| ==> layout[i].size + layout[i + 1].size + HEADER + layout[i + 2].size + HEADER < TWO32
      modifies this, chunks
      ensures Linked() && (forall c :: c in chunks ==> c in old(chunks))
      ensures layout == MergeIfFree(MergeAt(old(layout), i), i)
    {
      assert header.prev == chunks[i];
      var left := header.prev;
      AbsorbIntoPrev(header, i);
      AbsorbNextIfFree(left, i);
    }

    method AbsorbNextIfFree(chunk: MemoryChunk, ghost i: nat)
      requires Linked() && i < |chunks| && chunk == chunks[i]
      requires i + 1 < |layout| ==> layout[i].size + layout[i + 1].size + HEADER < TWO32
      modifies this, chunks
      ensures Linked() && (forall c :: c in chunks ==> c in old(chunks))
      ensures layout == MergeIfFree(old(layout), i)
    {
      if i + 1 < |chunks| {
        assert chunk.next == chunks[i + 1] && chunks[i + 1].View() == layout[i + 1];
      }
      if chunk.next != null && !chunk.next.used {
        AbsorbNext(chunk, i);
      }
    }
  }

  /** Each chunk's links name its neighbours, null at both ends. */
  ghost predicate Threaded(cs: seq<MemoryChunk>)
    reads cs
  {
    && (cs != [] ==> cs[0].prev == null && cs[|cs| - 1].next == null)
    && (forall i {:trigger cs[i].next} :: 0 <= i < |cs| - 1 ==> cs[i].next == cs[i + 1])
    && (forall i {:trigger cs[i].prev} :: 0 < i < |cs| ==> cs[i].prev == cs[i - 1])
  }

  /** Chunk i cut down to size and followed by its remainder. */
  ghost function SplitAt(l: Layout, i: nat, size: nat): Layout
    requires i < |l| && l[i].size >= size + HEADER
  {
    Cut(l, i, l[i].(size := size), Remainder(l[i], size))
  }

  /** The remainder's header is a new one: no chunk starts where it will. */
  ghost predicate SplitHeaderIsNew(l: Layout, i: nat, size: nat)
    requires i < |l|
  {
    forall k :: 0 <= k < |l| ==> l[k].addr != l[i].addr + HEADER + size
  }

  /** The machine arithmetic of a split of chunk i is exact. */
  ghost predicate NothingWraps(l: Layout, i: nat, size: Word)
    requires i < |l|
  {
    SplitSumsExact(l[i], size) && SplitHeaderIsNew(l, i, size)
  }

  lemma InitialWellFormed(start: nat, total: nat)
    ensures WellFormed(Initial(start, total), start, total)
  {
  }

  lemma AllocationIsSound(l: Layout, start: nat, total: nat, i: nat, size: Word)
    requires WellFormed(l, start, total) && Addressable(start, total)
    requires i < |l| && Fits(l[i], size)
    ensures WellFormed(MallocAt(l, i, size), start, total) && NothingWraps(l, i, size)
  {
    WellFormedInRange(l, start, total);
    SplitDoesNotWrap(l[i], size);
    MallocAtWellFormed(l, start, total, i, size);
    forall k | 0 <= k < |l| ensures l[k].addr != l[i].addr + HEADER + size {
      if k < i { Ordered(l, start, start + total, k, i); }
      if i < k { Ordered(l, start, start + total, i, k); }
    }
  }

  /** No size computed while coalescing around chunk i leaves 32 bits. */
  ghost predicate SizesFit(l: Layout, i: nat)
    requires i < |l|
  {
    && (i > 0 ==> l[i - 1].size + l[i].size + HEADER < TWO32)
    && (i + 1 < |l| ==> l[i].size + l[i + 1].size + HEADER < TWO32)
    && (0 < i < |l| - 1 ==> l[i - 1].size + l[i].size + HEADER + l[i + 1].size + HEADER < TWO32)
  }

  lemma MergedSizesFit(l: Layout, start: nat, total: nat, i: nat)
    requires WellFormed(l, start, total) && Addressable(start, total) && i < |l|
    ensures SizesFit(l, i)
  {
    ChunkBounds(l, start, start + total, i);
    if i > 0 { ChunkBounds(l, start, start + total, i - 1); }
    if i + 1 < |l| { ChunkBounds(l, start, start + total, i + 1); }
  }

  lemma FirstFitUnique(l: Layout, size: Word, i: nat)
    requires i <= |l| && (i < |l| ==> Fits(l[i], size))
    requires forall j :: 0 <= j < i ==> !Fits(l[j], size)
    ensures FirstFit(l, size) == i
  {
  }
}
