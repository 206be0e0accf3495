/** The heap of src/memorymanagement.cpp seen as the sequence of chunks in address order. */
module HeapLayouts {
  import opened Words

  /** sizeof(MemoryChunk) on i386: two pointers, a padded bool, a size. */
  const HEADER := 16

  datatype Chunk = Chunk(addr: nat, size: nat, used: bool)
  {
    function End(): nat { addr + HEADER + size }
    function Payload(): nat { addr + HEADER }
  }

  type Layout = seq<Chunk>

  // ----- the invariant

  /** The chunks cover [lo, hi) with neither gap nor overlap. */
  ghost predicate Tiles(l: Layout, lo: nat, hi: nat) {
    if l == [] then lo == hi
    else l[0].addr == lo && l[|l| - 1].End() == hi &&
         forall i, j :: 0 <= i < j < |l| && j <= i + 1 ==> l[j].addr == l[i].End()
  }

  /** No two neighbours are both free. */
  ghost predicate Coalesced(l: Layout) {
    forall i, j :: 0 <= i < j < |l| && j <= i + 1 ==> l[i].used || l[j].used
  }

  /** A region too small for one header holds no chunk; otherwise the chunks tile it. */
  ghost predicate WellFormed(l: Layout, start: nat, total: nat) {
    && Coalesced(l)
    && if total < HEADER then l == [] else l != [] && Tiles(l, start, start + total)
  }

  /** The region lies in the 32-bit address space and does not contain the null pointer. */
  predicate Addressable(start: nat, total: nat) { 1 <= start && start + total <= TWO32 }

  function Initial(start: nat, total: nat): Layout {
    if total < HEADER then [] else [Chunk(start, total - HEADER, false)]
  }

  /** The allocated chunks: what callers still hold. */
  ghost function Live(l: Layout): set<Chunk> { set c | c in l && c.used }

  // ----- malloc

  predicate Fits(c: Chunk, size: Word) { c.size > size && !c.used }

  /** Index of the first fitting chunk, or the number of chunks. */
  function FirstFit(l: Layout, size: Word): (i: nat)
    ensures i <= |l|
    ensures forall j :: 0 <= j < i ==> !Fits(l[j], size)
    ensures i < |l| ==> Fits(l[i], size)
  {
    if l == [] then 0 else if Fits(l[0], size) then 0 else 1 + FirstFit(l[1..], size)
  }

  /** Chunk i replaced by the two chunks it is cut into. */
  function Cut(l: Layout, i: nat, c: Chunk, d: Chunk): Layout
    requires i < |l|
  {
    l[..i] + [c, d] + l[i + 1..]
  }

  /** What is left of a chunk behind an allocation of the given size. */
  function Remainder(c: Chunk, size: nat): Chunk
    requires c.size >= size + HEADER
  {
    Chunk(c.addr + HEADER + size, c.size - size - HEADER, false)
  }

  /** Use chunk i, splitting off the remainder if that leaves at least one byte beyond a header. */
  function MallocAt(l: Layout, i: nat, size: Word): Layout
    requires i < |l|
  {
    var c := l[i];
    if c.size >= size + HEADER + 1 then Cut(l, i, Chunk(c.addr, size, true), Remainder(c, size))
    else l[i := c.(used := true)]
  }

  /** The new layout and the returned pointer, 0 for null. */
  function Malloc(l: Layout, size: Word): (Layout, nat) {
    var i := FirstFit(l, size);
    if i == |l| then (l, 0) else (MallocAt(l, i, size), l[i].Payload())
  }

  /** Every chunk lies between the null pointer and the end of the address space. */
  ghost predicate InRange(l: Layout) { forall c :: c in l ==> 1 <= c.addr && c.End() <= TWO32 }

  /** The three sums of a split, taken in 32 bits, are exact. */
  ghost predicate SplitSumsExact(c: Chunk, size: Word) {
    && Wrap(size + HEADER + 1) == size + HEADER + 1
    && (c.size >= size + HEADER + 1 ==>
          && Wrap(c.addr + HEADER + size) == c.addr + HEADER + size
          && Wrap(c.size - size - HEADER) == c.size - size - HEADER)
  }

  /** None of the 32-bit sums in malloc wraps for a chunk that fits and lies in the address space:
      neither the split test, nor the address and size of the remainder. */
  lemma SplitDoesNotWrap(c: Chunk, size: Word)
    requires 1 <= c.addr && c.End() <= TWO32 && Fits(c, size)
    ensures SplitSumsExact(c, size)
  {
  }

  // ----- free

  function MergeAt(l: Layout, i: nat): Layout
    requires i + 1 < |l|
  {
    l[..i] + [l[i].(size := l[i].size + l[i + 1].size + HEADER)] + l[i + 2..]
  }

  function MergeIfFree(l: Layout, i: nat): Layout
    requires i < |l|
  {
    if i + 1 < |l| && !l[i + 1].used then MergeAt(l, i) else l
  }

  /** Clear the flag, absorb into a free left neighbour, then absorb a free right neighbour. */
  function FreeAt(l: Layout, i: nat): Layout
    requires i < |l|
  {
    var cleared := l[i := l[i].(used := false)];
    if i > 0 && !l[i - 1].used then MergeIfFree(MergeAt(cleared, i - 1), i - 1)
    else MergeIfFree(cleared, i)
  }

  /** A pointer some caller holds. */
  ghost predicate Holds(l: Layout, ptr: nat) { exists c :: c in l && c.used && c.Payload() == ptr }

  ghost predicate IsHeldAt(l: Layout, ptr: nat, i: nat) { i < |l| && l[i].used && l[i].Payload() == ptr }

  ghost function HeldAt(l: Layout, ptr: nat): (i: nat)
    requires Holds(l, ptr)
    ensures IsHeldAt(l, ptr, i)
  {
    var c :| c in l && c.used && c.Payload() == ptr;
    var i: nat :| i < |l| && l[i] == c;
    i
  }

  ghost function Free(l: Layout, ptr: nat): Layout
    requires Holds(l, ptr)
  {
    FreeAt(l, HeldAt(l, ptr))
  }
}
