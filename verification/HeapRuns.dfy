/**
 Runs of the kernel heap: it behaves like a map of independent byte blocks, as long as no free goes wrong.

 A call of the code keeps the blocks exactly if the back-link over which it frees is safe.  From exact back-links every
 call is safe; runs stay safe with a split that repairs the back-link it breaks, and with the code's as long as only
 the last segment of the chain is ever split.  Growing a block is three calls, as the code releases its lock between
 them: an allocation, a copy and a free, with calls of other owners in between.
 */
module HeapRuns {
  import opened HeapMemory
  import opened HeapChain
  import opened HeapCalls
  import opened HeapBytes
  import opened KernelHeap

  // ------------------------------------------------------------------------- blocks

  type Blocks = map<nat, seq<bv8>>
  datatype Heap = Heap(mem: Mem, segs: seq<Seg>)

  /** A used segment holds these bytes at `p`. */
  ghost predicate Holds(h: Heap, p: nat, bytes: seq<bv8>) {
    && HEADER <= p && p + |bytes| <= |h.mem| && Used(h.segs, p - HEADER, HEADER + |bytes|)
    && h.mem[p..p + |bytes|] == bytes
  }

  ghost predicate Held(h: Heap, B: Blocks, p: nat) {
    p in B && Holds(h, p, B[p])
  }

  /** The chain tiles the heap, memory shows the chain, and the heap holds the blocks. */
  ghost predicate Sound(h: Heap, B: Blocks, base: nat, end: nat) {
    && 0 < base && Tiled(h.segs, base, end) && end <= |h.mem| && Shown(h.mem, h.segs)
    && forall p {:trigger Held(h, B, p)} :: p in B ==> Held(h, B, p)
  }

  /** Different blocks do not overlap, and lie in the heap. */
  lemma BlocksDisjoint(h: Heap, B: Blocks, base: nat, end: nat, p: nat, q: nat)
    requires Sound(h, B, base, end) && p in B && q in B && p != q
    ensures base <= p && p + |B[p]| <= end && (p + |B[p]| <= q || q + |B[q]| <= p)
  {
    assert Held(h, B, p) && Held(h, B, q);
    var s := h.segs;
    var j :| 0 <= j < |s| && s[j].addr == p - HEADER && s[j].size == HEADER + |B[p]| && !s[j].free;
    var k :| 0 <= k < |s| && s[k].addr == q - HEADER && s[k].size == HEADER + |B[q]| && !s[k].free;
    TiledInside(s, base, end, j);
    if j < k { TiledOrdered(s, base, end, j, k); } else { TiledOrdered(s, base, end, k, j); }
  }

  /** A block that is still used and whose bytes were not written is still held. */
  lemma StillHolds(h: Heap, h': Heap, p: nat, bytes: seq<bv8>)
    requires Holds(h, p, bytes) && |h'.mem| == |h.mem|
    requires Used(h'.segs, p - HEADER, HEADER + |bytes|)
    requires forall x {:trigger h'.mem[x]} :: p <= x < p + |bytes| ==> h'.mem[x] == h.mem[x]
    ensures Holds(h', p, bytes)
  {
  }

  /** Bytes of a used segment are in no header. */
  lemma UsedOffHeaders(segs: seq<Seg>, p: nat, n: nat, base: nat, end: nat)
    requires 0 < base && Tiled(segs, base, end) && HEADER <= p && Used(segs, p - HEADER, HEADER + n)
    ensures p + n <= end && forall x :: p <= x < p + n ==> !InHeader(segs, x)
  {
    var k :| 0 <= k < |segs| && segs[k].addr == p - HEADER && segs[k].size == HEADER + n && !segs[k].free;
    TiledSpaced(segs, base, end);
    forall x | p <= x < p + n ensures !InHeader(segs, x) {
      PayloadOffHeaders(segs, k, x, end);
    }
  }

  lemma TiledSpaced(segs: seq<Seg>, base: nat, end: nat)
    requires 0 < base && Tiled(segs, base, end)
    ensures Spaced(segs, end)
  {
    forall i | 0 <= i < |segs|
      ensures 0 < segs[i].addr && HEADER <= segs[i].size && segs[i].addr + segs[i].size <= end
    {
      TiledInside(segs, base, end, i);
    }
    forall i, j | 0 <= i < j < |segs| ensures segs[i].addr + segs[i].size <= segs[j].addr {
      TiledOrdered(segs, base, end, i, j);
    }
  }

  // ------------------------------------------------------------------------- calls

  datatype Op =
    | DoAlloc(n: nat)
    | DoFree(p: nat)
    | DoShrink(p: nat, n: nat)             // a resize to a size that the block has already
    | DoCopy(p: nat, q: nat)               // the bytes of a block to the start of another, as a growing resize copies
    | DoWrite(p: nat, k: nat, b: bv8)      // the owner of a block stores a byte in it

  /** Callers name blocks they own. */
  predicate OpOk(B: Blocks, op: Op) {
    match op
    case DoAlloc(_) => true
    case DoFree(p) => p in B
    case DoShrink(p, n) => p in B && n <= |B[p]|
    case DoCopy(p, q) => p in B && q in B && p != q && |B[p]| <= |B[q]|
    case DoWrite(p, k, _) => p in B && k < |B[p]|
  }

  function SegOf(h: Heap, p: nat): nat {
    if p < HEADER then |h.segs| else IndexOf(h.segs, p - HEADER, 0)
  }

  /** A copy from one used segment of the chain to another that is at least as large. */
  ghost predicate CanCopy(segs: seq<Seg>, i: nat, j: nat) {
    i < |segs| && j < |segs| && i != j && HEADER <= segs[i].size <= segs[j].size
  }

  /**
   One call of the allocator with result `r`, or one copy or store by an owner: the new chain, and the bytes outside
   headers.  The call starts from a memory that shows the chain.
   */
  ghost predicate Step(h: Heap, op: Op, h': Heap, r: nat, repaired: bool) {
    && Shown(h.mem, h.segs)
    && match op
       case DoAlloc(n) =>
         && (h'.segs, r) == AllocChain(h.segs, n, repaired)
         && OnlyHeaders(h.mem, h'.mem, h'.segs) && (r == 0 ==> h'.mem == h.mem) && Shown(h'.mem, h'.segs)
       case DoFree(p) =>
         && LinkInMemory(h.segs, SegOf(h, p), |h.mem|) && FreedOver(h.mem, h.segs, SegOf(h, p), h'.mem, h'.segs)
         && (LinkOk(h.mem, h.segs, SegOf(h, p)) ==> Shown(h'.mem, h'.segs))
       case DoShrink(p, n) =>
         && SegOf(h, p) < |h.segs| && h.segs[SegOf(h, p)].size >= n + HEADER
         && h'.segs == ShrinkChain(h.segs, SegOf(h, p), n, repaired) && r == p
         && OnlyHeaders(h.mem, h'.mem, h'.segs) && Shown(h'.mem, h'.segs)
       case DoCopy(p, q) =>
         && CanCopy(h.segs, SegOf(h, p), SegOf(h, q)) && h'.segs == h.segs
         && Copied(h.mem, h'.mem, q, p, h.segs[SegOf(h, p)].size - HEADER) && Shown(h'.mem, h'.segs)
       case DoWrite(p, k, b) =>
         p + k < |h.mem| && h' == h.(mem := h.mem[p + k := b]) && Shown(h'.mem, h'.segs)
  }

  /** The object's state, as a call sees it. */
  ghost function StateOf(heap: DynamicMemoryAllocator): Heap
    reads heap, heap.mem
  {
    Heap(heap.mem[..], heap.segs)
  }

  /** What a call needs of the state: a block of the chain, a back-link that leads to memory, no 64-bit overflow. */
  ghost predicate Callable(h: Heap, op: Op) {
    match op
    case DoAlloc(n) => n + HEADER + HEADER < TWO64
    case DoFree(p) => LinkInMemory(h.segs, SegOf(h, p), |h.mem|)
    case DoShrink(p, n) => SegOf(h, p) < |h.segs| && h.segs[SegOf(h, p)].size >= n + HEADER
    case DoCopy(p, q) => CanCopy(h.segs, SegOf(h, p), SegOf(h, q))
    case DoWrite(p, k, _) => SegOf(h, p) < |h.segs| && InPayload(h.segs[SegOf(h, p)], p + k)
  }

  lemma ValidShown(heap: DynamicMemoryAllocator)
    requires heap.Valid()
    ensures Shown(heap.mem[..], heap.segs)
  {
    assert Shows(heap.mem[..], heap.view) && Linked(heap.view, heap.segs, heap.mem.Length);
  }

  /** Every call of the object is a step; after it the object is valid, unless a free has destroyed a header. */
  method Call(heap: DynamicMemoryAllocator, op: Op) returns (r: nat)
    requires heap.Valid() && Callable(StateOf(heap), op)
    modifies heap.mem, heap`view, heap`segs
    ensures Step(old(StateOf(heap)), op, StateOf(heap), r, false)
    ensures (op.DoFree? ==> LinkOk(old(heap.mem[..]), old(heap.segs), old(SegOf(StateOf(heap), op.p)))) ==> heap.Valid()
  {
    r := 0;
    match op {
      case DoAlloc(n) => r := CallAlloc(heap, n);
      case DoFree(p) => CallFree(heap, p);
      case DoShrink(p, n) => r := CallShrink(heap, p, n);
      case DoCopy(p, q) => CallCopy(heap, p, q);
      case DoWrite(p, k, b) => CallWrite(heap, p, k, b);
    }
  }

  method CallAlloc(heap: DynamicMemoryAllocator, n: nat) returns (r: nat)
    requires heap.Valid() && Callable(StateOf(heap), DoAlloc(n))
    modifies heap.mem, heap`view, heap`segs
    ensures heap.Valid() && Step(old(StateOf(heap)), DoAlloc(n), StateOf(heap), r, false)
  {
    ValidShown(heap);
    r := heap.Allocate(n);
    ValidShown(heap);
  }

  method CallFree(heap: DynamicMemoryAllocator, p: nat)
    requires heap.Valid() && Callable(StateOf(heap), DoFree(p))
    modifies heap.mem, heap`view, heap`segs
    ensures Step(old(StateOf(heap)), DoFree(p), StateOf(heap), 0, false)
    ensures LinkOk(old(heap.mem[..]), old(heap.segs), old(SegOf(StateOf(heap), p))) ==> heap.Valid()
  {
    ghost var i := SegOf(StateOf(heap), p);
    ValidShown(heap);
    SignedSegment(heap.mem[..], heap.view, heap.segs, i);
    heap.Free(p, i);
    if heap.Valid() { ValidShown(heap); }
  }

  method CallShrink(heap: DynamicMemoryAllocator, p: nat, n: nat) returns (r: nat)
    requires heap.Valid() && Callable(StateOf(heap), DoShrink(p, n))
    modifies heap.mem, heap`view, heap`segs
    ensures heap.Valid() && Step(old(StateOf(heap)), DoShrink(p, n), StateOf(heap), r, false)
  {
    ValidShown(heap);
    heap.Shrink(p, n, SegOf(StateOf(heap), p));
    r := p;
    ValidShown(heap);
  }

  method CallCopy(heap: DynamicMemoryAllocator, p: nat, q: nat)
    requires heap.Valid() && Callable(StateOf(heap), DoCopy(p, q))
    modifies heap.mem, heap`view, heap`segs
    ensures heap.Valid() && Step(old(StateOf(heap)), DoCopy(p, q), StateOf(heap), 0, false)
  {
    ghost var i, j, m := SegOf(StateOf(heap), p), SegOf(StateOf(heap), q), heap.mem[..];
    ValidShown(heap);
    var h := heap.ReadSegment(p - HEADER, i);
    heap.CopyPayload(q, p, h.size - HEADER, j, i);
    ValidShown(heap);
    CopyStepOf(heap.segs, p, q, m, heap.mem[..], i, j, h.size);
  }

  method CallWrite(heap: DynamicMemoryAllocator, p: nat, k: nat, b: bv8)
    requires heap.Valid() && Callable(StateOf(heap), DoWrite(p, k, b))
    modifies heap.mem, heap`view, heap`segs
    ensures heap.Valid() && Step(old(StateOf(heap)), DoWrite(p, k, b), StateOf(heap), 0, false)
  {
    ValidShown(heap);
    heap.StorePayload(p + k, b, SegOf(StateOf(heap), p));
    ValidShown(heap);
  }

  /** A resize that grows a block is an allocation, and if that succeeds a copy and a free. */
  method CallGrow(heap: DynamicMemoryAllocator, p: nat, n: nat) returns (r: nat, ghost h0: Heap, ghost h1: Heap)
    requires heap.Valid() && n + HEADER + HEADER < TWO64
    requires LinkInMemory(heap.segs, SegOf(StateOf(heap), p), heap.mem.Length)
    requires var seg := heap.segs[SegOf(StateOf(heap), p)]; !seg.free && seg.size < n + HEADER
    modifies heap.mem, heap`view, heap`segs
    ensures Step(old(StateOf(heap)), DoAlloc(n), h0, r, false)
    ensures r == 0 ==> StateOf(heap) == old(StateOf(heap)) && heap.Valid()
    ensures r != 0 ==> Step(h0, DoCopy(p, r), h1, 0, false) && Step(h1, DoFree(p), StateOf(heap), 0, false)
    ensures r != 0 && LinkOk(h1.mem, h1.segs, SegOf(h1, p)) ==> heap.Valid()
  {
    ghost var h, i := StateOf(heap), SegOf(StateOf(heap), p);
    ValidShown(heap);
    SignedSegment(heap.mem[..], heap.view, heap.segs, i);
    ghost var m0, m1;
    r, m0, m1 := heap.Reallocate(p, n, i);
    if heap.Valid() { ValidShown(heap); }
    ghost var t := AllocChain(h.segs, n, false).0;
    h0, h1 := if r == 0 then h else Heap(m0, t), if r == 0 then h else Heap(m1, t);
    if r != 0 { GrowSteps(h, p, n, t, r, m0, m1, AfterTake(h.segs, n, i), StateOf(heap)); }
  }

  /** Where the old and the new block of a move stand. */
  lemma GrowIndex(h: Heap, p: nat, n: nat, t: seq<Seg>, r: nat, m: Mem)
    requires SegOf(h, p) < |h.segs| && !h.segs[SegOf(h, p)].free && HEADER <= h.segs[SegOf(h, p)].size < n + HEADER
    requires (t, r) == AllocChain(h.segs, n, false) && r != 0 && Spaced(t, |m|)
    ensures var k, d := AfterTake(h.segs, n, SegOf(h, p)), FirstFit(h.segs, 0, n + HEADER + HEADER);
            && SegOf(Heap(m, t), p) == k && SegOf(Heap(m, t), r) == d && CanCopy(t, k, d) && t[k] == h.segs[SegOf(h, p)]
  {
    MoveIndex(h.segs, n, false, SegOf(h, p));
    SpacedIndex(t, AfterTake(h.segs, n, SegOf(h, p)), |m|);
    SpacedIndex(t, FirstFit(h.segs, 0, n + HEADER + HEADER), |m|);
  }

  lemma CopyStepOf(t: seq<Seg>, p: nat, r: nat, m0: Mem, m1: Mem, k: nat, d: nat, size: nat)
    requires Shown(m0, t) && Shown(m1, t) && SegOf(Heap(m0, t), p) == k && SegOf(Heap(m0, t), r) == d
    requires CanCopy(t, k, d)
    requires size == t[k].size && Copied(m0, m1, r, p, size - HEADER)
    ensures Step(Heap(m0, t), DoCopy(p, r), Heap(m1, t), 0, false)
  {
  }

  lemma FreeStepOf(t: seq<Seg>, p: nat, m1: Mem, k: nat, h': Heap)
    requires Shown(m1, t) && SegOf(Heap(m1, t), p) == k && LinkInMemory(t, k, |m1|)
    requires FreedOver(m1, t, k, h'.mem, h'.segs)
    requires LinkOk(m1, t, k) ==> Shown(h'.mem, h'.segs)
    ensures Step(Heap(m1, t), DoFree(p), h', 0, false)
  {
  }

  /** The copy of a move. */
  lemma GrowCopies(h: Heap, p: nat, n: nat, t: seq<Seg>, r: nat, m0: Mem, m1: Mem)
    requires SegOf(h, p) < |h.segs| && !h.segs[SegOf(h, p)].free && HEADER <= h.segs[SegOf(h, p)].size < n + HEADER
    requires (t, r) == AllocChain(h.segs, n, false) && r != 0 && Shown(m0, t) && Shown(m1, t)
    requires Copied(m0, m1, r, h.segs[SegOf(h, p)].addr + HEADER, h.segs[SegOf(h, p)].size - HEADER)
    ensures Step(Heap(m0, t), DoCopy(p, r), Heap(m1, t), 0, false)
  {
    assert h.segs[SegOf(h, p)].addr + HEADER == p;
    ShownSpaced(m0, t);
    GrowIndex(h, p, n, t, r, m0);
    var k, d := AfterTake(h.segs, n, SegOf(h, p)), FirstFit(h.segs, 0, n + HEADER + HEADER);
    CopyStepOf(t, p, r, m0, m1, k, d, h.segs[SegOf(h, p)].size);
  }

  /** The free of a move. */
  lemma GrowFrees(h: Heap, p: nat, n: nat, t: seq<Seg>, r: nat, m1: Mem, k: nat, h': Heap)
    requires SegOf(h, p) < |h.segs| && !h.segs[SegOf(h, p)].free && HEADER <= h.segs[SegOf(h, p)].size < n + HEADER
    requires (t, r) == AllocChain(h.segs, n, false) && r != 0 && k == AfterTake(h.segs, n, SegOf(h, p)) && Shown(m1, t)
    requires LinkInMemory(t, k, |m1|) && FreedOver(m1, t, k, h'.mem, h'.segs)
    requires LinkOk(m1, t, k) ==> Shown(h'.mem, h'.segs)
    ensures Step(Heap(m1, t), DoFree(p), h', 0, false) && SegOf(Heap(m1, t), p) == k
  {
    ShownSpaced(m1, t);
    GrowIndex(h, p, n, t, r, m1);
    FreeStepOf(t, p, m1, k, h');
  }

  lemma AllocStepOf(h: Heap, n: nat, t: seq<Seg>, r: nat, m0: Mem)
    requires Shown(h.mem, h.segs) && (t, r) == AllocChain(h.segs, n, false) && r != 0
    requires OnlyHeaders(h.mem, m0, t) && Shown(m0, t)
    ensures Step(h, DoAlloc(n), Heap(m0, t), r, false)
  {
  }

  /** The memories of a move make its three steps. */
  lemma GrowSteps(h: Heap, p: nat, n: nat, t: seq<Seg>, r: nat, m0: Mem, m1: Mem, k: nat, h': Heap)
    requires Shown(h.mem, h.segs) && SegOf(h, p) < |h.segs| && !h.segs[SegOf(h, p)].free
    requires h.segs[SegOf(h, p)].size < n + HEADER && (t, r) == AllocChain(h.segs, n, false)
    requires k == AfterTake(h.segs, n, SegOf(h, p))
    requires MovedOver(h.mem, h.segs, SegOf(h, p), n, m0, m1, h'.mem, h'.segs)
    requires LinkOk(m1, t, k) ==> Shown(h'.mem, h'.segs)
    ensures Step(h, DoAlloc(n), Heap(m0, t), r, false) && Step(Heap(m0, t), DoCopy(p, r), Heap(m1, t), 0, false)
    ensures Step(Heap(m1, t), DoFree(p), h', 0, false) && SegOf(Heap(m1, t), p) == k
  {
    MovedParts(h.mem, h.segs, SegOf(h, p), n, t, r, k, m0, m1, h'.mem, h'.segs);
    AllocStepOf(h, n, t, r, m0);
    GrowCopies(h, p, n, t, r, m0, m1);
    GrowFrees(h, p, n, t, r, m1, k, h');
  }

  lemma ShownSpaced(m: Mem, segs: seq<Seg>)
    requires Shown(m, segs)
    ensures Spaced(segs, |m|)
  {
  }

  lemma SpacedIndex(segs: seq<Seg>, k: nat, limit: nat)
    requires Spaced(segs, limit) && k < |segs|
    ensures IndexOf(segs, segs[k].addr, 0) == k
  {
    forall j | 0 <= j < k ensures segs[j].addr != segs[k].addr {
      assert segs[j].addr + segs[j].size <= segs[k].addr;
    }
    IndexIs(segs, segs[k].addr, k);
  }

  function Slice(m: Mem, lo: nat, hi: nat): seq<bv8> {
    if lo <= hi <= |m| then m[lo..hi] else []
  }

  /** The independent blocks after a call: fresh bytes come from memory, all others from the blocks themselves. */
  function NextBlocks(B: Blocks, op: Op, r: nat, m: Mem): Blocks
    requires OpOk(B, op)
  {
    match op
    case DoAlloc(n) => if r == 0 then B else B[r := Slice(m, r, r + n)]
    case DoFree(p) => B - {p}
    case DoShrink(p, n) => B[p := if CanSplit(HEADER + |B[p]|, n + HEADER) then B[p][..n] else B[p]]
    case DoCopy(p, q) => B[q := B[p] + B[q][|B[p]|..]]
    case DoWrite(p, k, b) => B[p := B[p][k := b]]
  }

  // ------------------------------------------------------------------------- which calls are safe

  /** No block but the one at `p` has the byte at `x`. */
  ghost predicate NoBlockAt(B: Blocks, p: nat, x: nat) {
    forall q {:trigger HasByte(B, q, x)} :: q in B && q != p ==> !HasByte(B, q, x)
  }

  predicate HasByte(B: Blocks, q: nat, x: nat) {
    q in B && q <= x < q + |B[q]|
  }

  /**
   Freeing the block at `p` is safe: its back-link into the chain is harmless, or it leads out of the chain, to a clear
   free bit or to two words that are in no header and in no other block.
   */
  ghost predicate FreeSafe(h: Heap, B: Blocks, p: nat) {
    var i := SegOf(h, p);
    && LinkOk(h.mem, h.segs, i)
    && (BackInChain(h.segs, i) ==> Harmless(h.segs, i))
    && (!BackInChain(h.segs, i) && FreedBit(h.mem, h.segs, i) ==> NoBlockAt(B, p, h.segs[i].prev + 8))
  }

  ghost predicate Safe(h: Heap, B: Blocks, op: Op) {
    op.DoFree? ==> FreeSafe(h, B, op.p)
  }

  /** From exact back-links every call is safe. */
  lemma ExactIsSafe(h: Heap, B: Blocks, op: Op, base: nat, end: nat)
    requires Sound(h, B, base, end) && BackExact(h.segs) && OpOk(B, op)
    ensures Safe(h, B, op)
  {
    if op.DoFree? {
      var i := SegOfBlock(h, B, base, end, op.p);
      ExactHarmless(h.segs, i, 0, false, base, end);
      LinkOfChain(h, i, base, end);
    }
  }

  /** A back-link into the chain leads to memory. */
  lemma LinkOfChain(h: Heap, i: nat, base: nat, end: nat)
    requires 0 < base && Tiled(h.segs, base, end) && end <= |h.mem| && BackInChain(h.segs, i)
    ensures LinkOk(h.mem, h.segs, i)
  {
    TiledInside(h.segs, base, end, if h.segs[i].prev == 0 then i else IndexOf(h.segs, h.segs[i].prev, 0));
  }

  /** Back-links that point below lead to memory of the heap. */
  lemma LinkBelow(h: Heap, i: nat, base: nat, end: nat)
    requires Tiled(h.segs, base, end) && LinksBelow(h.segs) && i < |h.segs|
    ensures LinkInMemory(h.segs, i, end)
  {
    TiledInside(h.segs, base, end, i);
  }

  /** As long as back-links point below, every call on blocks that callers own can be made. */
  lemma OwnersCanCall(h: Heap, B: Blocks, op: Op, base: nat, end: nat)
    requires Sound(h, B, base, end) && LinksBelow(h.segs) && OpOk(B, op)
    requires op.DoAlloc? ==> op.n + HEADER + HEADER < TWO64
    ensures Callable(h, op)
  {
    if !op.DoAlloc? {
      var i := SegOfBlock(h, B, base, end, op.p);
      if op.DoCopy? { var j := SegOfBlock(h, B, base, end, op.q); }
      LinkBelow(h, i, base, end);
    }
  }

  // ------------------------------------------------------------------------- one step

  lemma SegOfBlock(h: Heap, B: Blocks, base: nat, end: nat, p: nat) returns (i: nat)
    requires Sound(h, B, base, end) && p in B
    ensures i == SegOf(h, p) < |h.segs| && h.segs[i] == Seg(p - HEADER, HEADER + |B[p]|, false, h.segs[i].prev)
  {
    i := SegOf(h, p);
    assert Held(h, B, p);
    var k :| 0 <= k < |h.segs| && h.segs[k].addr == p - HEADER && h.segs[k].size == HEADER + |B[p]| && !h.segs[k].free;
    IndexUnique(h.segs, base, end, i, k);
  }

  /** The place an allocation returns is no block yet. */
  lemma AllocFresh(h: Heap, B: Blocks, n: nat, repaired: bool, base: nat, end: nat)
    requires Sound(h, B, base, end) && AllocChain(h.segs, n, repaired).1 != 0
    ensures var (t, r) := AllocChain(h.segs, n, repaired);
            HEADER <= r && r !in B && Used(t, r - HEADER, HEADER + n)
  {
    var (t, r) := AllocChain(h.segs, n, repaired);
    AllocAdds(h.segs, n, repaired, base, end, 0);
    forall p | p in B ensures p != r {
      assert Held(h, B, p);
      AllocAdds(h.segs, n, repaired, base, end, HEADER + |B[p]|);
    }
  }

  lemma AllocHolds(h: Heap, h': Heap, n: nat, repaired: bool, p: nat, bytes: seq<bv8>, base: nat, end: nat)
    requires 0 < base && Tiled(h.segs, base, end) && Tiled(h'.segs, base, end) && Holds(h, p, bytes)
    requires h'.segs == AllocChain(h.segs, n, repaired).0 && OnlyHeaders(h.mem, h'.mem, h'.segs)
    ensures Holds(h', p, bytes)
  {
    AllocUsed(h.segs, n, repaired, p - HEADER, HEADER + |bytes|);
    UsedOffHeaders(h'.segs, p, |bytes|, base, end);
    StillHolds(h, h', p, bytes);
  }

  /** The new block of an allocation holds what memory had there. */
  lemma NewHolds(h: Heap, n: nat, r: nat, base: nat, end: nat)
    requires 0 < base && Tiled(h.segs, base, end) && end <= |h.mem| && HEADER <= r
    requires Used(h.segs, r - HEADER, HEADER + n)
    ensures |Slice(h.mem, r, r + n)| == n && Holds(h, r, Slice(h.mem, r, r + n))
  {
    UsedOffHeaders(h.segs, r, n, base, end);
  }

  lemma AllocStep(h: Heap, B: Blocks, op: Op, h': Heap, r: nat, repaired: bool, base: nat, end: nat)
    requires Sound(h, B, base, end) && op.DoAlloc? && Step(h, op, h', r, repaired)
    ensures Sound(h', NextBlocks(B, op, r, h'.mem), base, end)
    ensures r != 0 ==> r !in B && |NextBlocks(B, op, r, h'.mem)[r]| == op.n
  {
    AllocTiled(h.segs, op.n, repaired, base, end);
    if r != 0 {
      AllocFresh(h, B, op.n, repaired, base, end);
      NewHolds(h', op.n, r, base, end);
    }
    var B' := NextBlocks(B, op, r, h'.mem);
    forall p | p in B' ensures Held(h', B', p) {
      if p in B {
        assert Held(h, B, p);
        AllocHolds(h, h', op.n, repaired, p, B[p], base, end);
      }
    }
  }

  // ---- freeing

  lemma FreeInChain(h: Heap, B: Blocks, p: nat, h': Heap, i: nat, base: nat, end: nat)
    requires Sound(h, B, base, end) && p in B && i == SegOf(h, p) && Harmless(h.segs, i) && Shown(h'.mem, h'.segs)
    requires h'.segs == FreeChain(h.segs, i) && OnlyHeaders(h.mem, h'.mem, h.segs)
    ensures Sound(h', B - {p}, base, end)
  {
    FreeInChainTiled(h.segs, i, base, end);
    forall q | q in B - {p} ensures Held(h', B - {p}, q) {
      assert Held(h, B, q) && Held(h, B, p);
      FreeUsed(h.segs, i, base, end, q - HEADER, HEADER + |B[q]|);
      UsedOffHeaders(h.segs, q, |B[q]|, base, end);
      StillHolds(h, h', q, B[q]);
    }
  }

  /** A block without the first of some bytes off the headers has none of them. */
  lemma BlockOffWords(segs: seq<Seg>, q: nat, n: nat, x: nat, l: nat)
    requires HEADER <= q && Used(segs, q - HEADER, HEADER + n) && OffHeaders(segs, x, l) && !(q <= x < q + n)
    ensures q + n <= x || x + l <= q
  {
    var k :| 0 <= k < |segs| && segs[k].addr == q - HEADER && segs[k].size == HEADER + n && !segs[k].free;
    if x < q < x + l {
      assert InHeader(segs, q - 1);
      assert false;
    }
  }

  /** A block whose bytes are off what was written is still held. */
  lemma WordsHold(h: Heap, h': Heap, c: seq<Seg>, s: nat, q: nat, bytes: seq<bv8>, base: nat, end: nat)
    requires 0 < base && Tiled(c, base, end) && Holds(h, q, bytes) && Used(c, q - HEADER, HEADER + |bytes|)
    requires Used(h'.segs, q - HEADER, HEADER + |bytes|) && WordsAndHeaders(h.mem, h'.mem, c, s)
    requires OffHeaders(c, s + 8, 16) && !(q <= s + 8 < q + |bytes|)
    ensures Holds(h', q, bytes)
  {
    UsedOffHeaders(c, q, |bytes|, base, end);
    BlockOffWords(c, q, |bytes|, s + 8, 16);
    StillHolds(h, h', q, bytes);
  }

  /** What a free over a back-link out of the chain writes, by the free bit found there. */
  ghost predicate WrittenOut(m: Mem, r: Mem, segs: seq<Seg>, i: nat, t: seq<Seg>, bit: bool)
    requires i < |segs|
  {
    && |r| == |m| && t == StaleFreeChain(segs, i, bit)
    && if bit then WordsAndHeaders(m, r, Joined(segs, i), segs[i].prev) else OnlyHeaders(m, r, segs)
  }

  lemma FreedWrites(h: Heap, h': Heap, i: nat)
    requires LinkInMemory(h.segs, i, |h.mem|) && !BackInChain(h.segs, i) && FreedOver(h.mem, h.segs, i, h'.mem, h'.segs)
    ensures WrittenOut(h.mem, h'.mem, h.segs, i, h'.segs, FreedBit(h.mem, h.segs, i))
  {
    FreedChainIs(h.mem, h.segs, i, h'.mem, h'.segs);
    ShownSameLength(h, h', i);
    if FreedBit(h.mem, h.segs, i) {
      FreedOutBytes(h.mem, h.segs, i, h'.mem, h'.segs);
    } else {
      FreedBitClear(h.mem, h.segs, i, h'.mem, h'.segs);
    }
  }

  /** One block over such a free. */
  lemma OutHolds(h: Heap, h': Heap, i: nat, bit: bool, q: nat, bytes: seq<bv8>, base: nat, end: nat)
    requires 0 < base && Tiled(h.segs, base, end) && Holds(h, q, bytes)
    requires i < |h.segs| && q - HEADER != h.segs[i].addr && WrittenOut(h.mem, h'.mem, h.segs, i, h'.segs, bit)
    requires bit ==> OffHeaders(Joined(h.segs, i), h.segs[i].prev + 8, 16) && !(q <= h.segs[i].prev + 8 < q + |bytes|)
    ensures Holds(h', q, bytes)
  {
    StaleFreeUsed(h.segs, i, bit, q - HEADER, HEADER + |bytes|);
    if bit {
      JoinedUsed(h.segs, i, q - HEADER, HEADER + |bytes|);
      JoinedTiled(h.segs, i, base, end);
      WordsHold(h, h', Joined(h.segs, i), h.segs[i].prev, q, bytes, base, end);
    } else {
      UsedOffHeaders(h.segs, q, |bytes|, base, end);
      StillHolds(h, h', q, bytes);
    }
  }

  lemma JoinedTiled(segs: seq<Seg>, i: nat, base: nat, end: nat)
    requires Tiled(segs, base, end) && i < |segs|
    ensures Tiled(Joined(segs, i), base, end)
  {
    FlagTiled(segs, i, true, base, end);
    MergedNextKeeps(Freed(segs, i), i, base, end);
  }

  lemma OutSound(h: Heap, B: Blocks, p: nat, h': Heap, i: nat, bit: bool, base: nat, end: nat)
    requires Sound(h, B, base, end) && HEADER <= p && i < |h.segs| && h.segs[i].addr == p - HEADER
    requires WrittenOut(h.mem, h'.mem, h.segs, i, h'.segs, bit) && Shown(h'.mem, h'.segs)
    requires bit ==> OffHeaders(Joined(h.segs, i), h.segs[i].prev + 8, 16) && NoBlockAt(B, p, h.segs[i].prev + 8)
    ensures Sound(h', B - {p}, base, end)
  {
    StaleFreeTiled(h.segs, i, bit, base, end);
    forall q | q in B - {p} ensures Held(h', B - {p}, q) {
      assert Held(h, B, q) && (bit ==> !HasByte(B, q, h.segs[i].prev + 8));
      OutHolds(h, h', i, bit, q, B[q], base, end);
    }
  }

  /** The facts of a safe free over a back-link out of the chain. */
  lemma SafeOut(h: Heap, B: Blocks, p: nat, h': Heap, i: nat) returns (bit: bool)
    requires i == SegOf(h, p) && FreeSafe(h, B, p) && !BackInChain(h.segs, i)
    requires FreedOver(h.mem, h.segs, i, h'.mem, h'.segs)
    ensures WrittenOut(h.mem, h'.mem, h.segs, i, h'.segs, bit)
    ensures bit ==> OffHeaders(Joined(h.segs, i), h.segs[i].prev + 8, 16) && NoBlockAt(B, p, h.segs[i].prev + 8)
  {
    bit := FreedBit(h.mem, h.segs, i);
    FreedWrites(h, h', i);
  }

  lemma ShownSameLength(h: Heap, h': Heap, i: nat)
    requires LinkInMemory(h.segs, i, |h.mem|) && FreedOver(h.mem, h.segs, i, h'.mem, h'.segs)
    ensures |h'.mem| == |h.mem|
  {
    var mid := FirstMerge(h.mem, h.segs, i, h'.mem, h'.segs);
    SecondLength(mid, Joined(h.segs, i), i, h'.mem, h'.segs);
  }

  lemma SecondLength(mid: Mem, c: seq<Seg>, i: nat, r: Mem, t: seq<Seg>)
    requires SecondMerged(mid, c, i, r, t)
    ensures |r| == |mid|
  {
    var s := c[i].prev;
    if s != 0 && FreeBit(mid, s) {
      var m1 := Between(mid, r, s, Sum64(Get64(mid, s + 8), c[i].size), NextAddr(c, i));
    }
  }

  lemma FreeStep(h: Heap, B: Blocks, op: Op, h': Heap, r: nat, repaired: bool, base: nat, end: nat)
    requires Sound(h, B, base, end) && op.DoFree? && OpOk(B, op) && Step(h, op, h', r, repaired) && FreeSafe(h, B, op.p)
    ensures Sound(h', NextBlocks(B, op, r, h'.mem), base, end)
  {
    var i := SegOf(h, op.p);
    if BackInChain(h.segs, i) {
      FreedInChain(h.mem, h.segs, i, h'.mem, h'.segs);
      FreeInChain(h, B, op.p, h', i, base, end);
    } else {
      var bit := SafeOut(h, B, op.p, h', i);
      assert Held(h, B, op.p);
      OutSound(h, B, op.p, h', i, bit, base, end);
    }
  }

  lemma WriteStep(h: Heap, B: Blocks, op: Op, h': Heap, r: nat, repaired: bool, base: nat, end: nat)
    requires Sound(h, B, base, end) && op.DoWrite? && OpOk(B, op) && Step(h, op, h', r, repaired)
    ensures Sound(h', NextBlocks(B, op, r, h'.mem), base, end)
  {
    assert Held(h, B, op.p);
    assert h'.mem[op.p..op.p + |B[op.p]|] == B[op.p][op.k := op.b];
    var B' := NextBlocks(B, op, r, h'.mem);
    forall p | p in B' ensures Held(h', B', p) {
      if p != op.p {
        assert Held(h, B, p);
        BlocksDisjoint(h, B, base, end, p, op.p);
        StillHolds(h, h', p, B[p]);
      }
    }
  }

  // ---- resizing

  /** Where only headers were written, a used segment still holds the first bytes it held. */
  lemma HoldsPrefix(h: Heap, h': Heap, p: nat, bytes: seq<bv8>, n: nat, base: nat, end: nat)
    requires Holds(h, p, bytes) && n <= |bytes| && 0 < base && Tiled(h'.segs, base, end)
    requires OnlyHeaders(h.mem, h'.mem, h'.segs)
    requires Used(h'.segs, p - HEADER, HEADER + n)
    ensures Holds(h', p, bytes[..n])
  {
    UsedOffHeaders(h'.segs, p, n, base, end);
    assert h'.mem[p..p + n] == h.mem[p..p + n] == h.mem[p..p + |bytes|][..n];
  }

  ghost predicate BlockUsed(segs: seq<Seg>, B: Blocks, q: nat) {
    q in B && HEADER <= q && Used(segs, q - HEADER, HEADER + |B[q]|)
  }

  /** All blocks are used segments of the chain, but for the one at `except`. */
  ghost predicate AllUsed(segs: seq<Seg>, B: Blocks, except: nat) {
    forall q {:trigger BlockUsed(segs, B, q)} :: q in B && q != except ==> BlockUsed(segs, B, q)
  }

  lemma AllBlocksUsed(h: Heap, B: Blocks, base: nat, end: nat)
    requires Sound(h, B, base, end)
    ensures AllUsed(h.segs, B, 0) && 0 !in B
  {
    forall q | q in B ensures BlockUsed(h.segs, B, q) { assert Held(h, B, q); }
  }

  /** A block that is split in place. */
  lemma SplitInPlace(segs: seq<Seg>, B: Blocks, p: nat, n: nat, repaired: bool, base: nat, end: nat, i: nat)
    requires Tiled(segs, base, end) && AllUsed(segs, B, 0) && 0 !in B && p >= HEADER
    requires i < |segs| && segs[i].addr == p - HEADER && !segs[i].free && CanSplit(segs[i].size, n + HEADER)
    ensures var t := SplitWith(segs, i, n + HEADER, repaired);
            Tiled(t, base, end) && Used(t, p - HEADER, HEADER + n) && AllUsed(t, B, p)
  {
    SplitTiled(segs, i, n + HEADER, repaired, base, end);
    ShrinkTail(segs, i, n + HEADER, repaired);
    var t := SplitWith(segs, i, n + HEADER, repaired);
    forall q | q in B && q != p ensures BlockUsed(t, B, q) {
      assert BlockUsed(segs, B, q);
      ShrinkOthers(segs, i, n + HEADER, repaired, q - HEADER, HEADER + |B[q]|);
    }
  }

  /** The blocks after one was resized in place to `n` bytes. */
  lemma InPlace(h: Heap, B: Blocks, p: nat, n: nat, h': Heap, base: nat, end: nat)
    requires Sound(h, B, base, end) && p in B && n <= |B[p]| && HEADER <= p
    requires Tiled(h'.segs, base, end) && OnlyHeaders(h.mem, h'.mem, h'.segs) && Shown(h'.mem, h'.segs)
    requires Used(h'.segs, p - HEADER, HEADER + n) && AllUsed(h'.segs, B, p)
    ensures Sound(h', B[p := B[p][..n]], base, end)
  {
    var B' := B[p := B[p][..n]];
    forall q | q in B' ensures Held(h', B', q) {
      assert Held(h, B, q) && (q != p ==> BlockUsed(h'.segs, B, q));
      HoldsPrefix(h, h', q, B[q], |B'[q]|, base, end);
      assert B[q][..|B'[q]|] == B'[q];
    }
  }

  /** A block that is large enough, whether it is split or not. */
  lemma ShrinkSound(h: Heap, B: Blocks, p: nat, n: nat, h': Heap, repaired: bool, base: nat, end: nat, i: nat)
    requires Sound(h, B, base, end) && p in B && n <= |B[p]| && HEADER <= p
    requires i < |h.segs| && h.segs[i].addr == p - HEADER && !h.segs[i].free && h.segs[i].size == HEADER + |B[p]|
    requires h'.segs == ShrinkChain(h.segs, i, n, repaired) && OnlyHeaders(h.mem, h'.mem, h'.segs)
    requires Shown(h'.mem, h'.segs)
    ensures Sound(h', B[p := if CanSplit(HEADER + |B[p]|, n + HEADER) then B[p][..n] else B[p]], base, end)
  {
    AllBlocksUsed(h, B, base, end);
    if CanSplit(h.segs[i].size, n + HEADER) {
      SplitInPlace(h.segs, B, p, n, repaired, base, end, i);
      InPlace(h, B, p, n, h', base, end);
    } else {
      assert BlockUsed(h.segs, B, p);
      InPlace(h, B, p, |B[p]|, h', base, end);
      assert B[p][..|B[p]|] == B[p];
    }
  }

  lemma ShrinkStep(h: Heap, B: Blocks, op: Op, h': Heap, r: nat, repaired: bool, base: nat, end: nat)
    requires Sound(h, B, base, end) && op.DoShrink? && OpOk(B, op) && Step(h, op, h', r, repaired)
    ensures r == op.p && Sound(h', NextBlocks(B, op, r, h'.mem), base, end)
  {
    var i := SegOfBlock(h, B, base, end, op.p);
    assert Held(h, B, op.p);
    ShrinkSound(h, B, op.p, op.n, h', repaired, base, end, i);
  }

  // ---- copying

  /** The block that is copied to. */
  lemma CopyHere(m: Mem, m': Mem, p: nat, q: nat, a: seq<bv8>, b: seq<bv8>)
    requires |a| <= |b| && p + |a| <= |m| && q + |b| <= |m| && m[p..p + |a|] == a && m[q..q + |b|] == b
    requires Copied(m, m', q, p, |a|)
    ensures m'[q..q + |b|] == a + b[|a|..]
  {
    forall x | q <= x < q + |b| ensures m'[x] == (a + b[|a|..])[x - q] {
      if x < q + |a| {
        assert m'[x] == m[x - q + p] == m[p..p + |a|][x - q];
      } else {
        assert m'[x] == m[x] == m[q..q + |b|][x - q];
      }
    }
  }

  lemma CopyStep(h: Heap, B: Blocks, op: Op, h': Heap, r: nat, repaired: bool, base: nat, end: nat)
    requires Sound(h, B, base, end) && op.DoCopy? && OpOk(B, op) && Step(h, op, h', r, repaired)
    ensures Sound(h', NextBlocks(B, op, r, h'.mem), base, end)
  {
    var i := SegOfBlock(h, B, base, end, op.p);
    var B' := NextBlocks(B, op, r, h'.mem);
    forall x | x in B' ensures Held(h', B', x) {
      CopyHolds(h, B, op.p, op.q, h', base, end, x);
    }
  }

  lemma CopyHolds(h: Heap, B: Blocks, p: nat, q: nat, h': Heap, base: nat, end: nat, x: nat)
    requires Sound(h, B, base, end) && p in B && q in B && |B[p]| <= |B[q]| && x in B
    requires h'.segs == h.segs && Copied(h.mem, h'.mem, q, p, |B[p]|)
    ensures Holds(h', x, if x == q then B[p] + B[q][|B[p]|..] else B[x])
  {
    assert Held(h, B, p) && Held(h, B, q) && Held(h, B, x);
    if x == q {
      CopyHere(h.mem, h'.mem, p, q, B[p], B[q]);
    } else {
      BlocksDisjoint(h, B, base, end, x, q);
      StillHolds(h, h', x, B[x]);
    }
  }

  // ---- any call

  /** A safe call acts on the blocks as on independent pieces of memory; a place it returns was no block before. */
  lemma StepKeeps(h: Heap, B: Blocks, op: Op, h': Heap, r: nat, repaired: bool, base: nat, end: nat)
    requires Sound(h, B, base, end) && OpOk(B, op) && Step(h, op, h', r, repaired) && Safe(h, B, op)
    ensures Sound(h', NextBlocks(B, op, r, h'.mem), base, end)
    ensures op.DoAlloc? && r != 0 ==> r !in B && |NextBlocks(B, op, r, h'.mem)[r]| == op.n
  {
    match op {
      case DoAlloc(_) => AllocStep(h, B, op, h', r, repaired, base, end);
      case DoFree(_) => FreeStep(h, B, op, h', r, repaired, base, end);
      case DoShrink(_, _) => ShrinkStep(h, B, op, h', r, repaired, base, end);
      case DoCopy(_, _) => CopyStep(h, B, op, h', r, repaired, base, end);
      case DoWrite(_, _, _) => WriteStep(h, B, op, h', r, repaired, base, end);
    }
  }

  /**
   From any state with exact back-links, each call of the code as written keeps the tiling, the sum of the sizes and
   every block.
   */
  lemma StepFromExact(h: Heap, B: Blocks, op: Op, h': Heap, r: nat, base: nat, end: nat)
    requires Sound(h, B, base, end) && BackExact(h.segs) && OpOk(B, op) && Step(h, op, h', r, false)
    ensures Sound(h', NextBlocks(B, op, r, h'.mem), base, end) && SumSizes(h'.segs) == end - base
    ensures op.DoAlloc? && r != 0 ==> r !in B && |NextBlocks(B, op, r, h'.mem)[r]| == op.n
  {
    ExactIsSafe(h, B, op, base, end);
    StepKeeps(h, B, op, h', r, false, base, end);
    TiledSum(h'.segs, base, end);
  }

  // ---- growing

  /** The blocks once the block at `p` is copied to the fresh block at `r`. */
  function CopiedBlocks(B: Blocks, p: nat, r: nat, n: nat, m: Mem): Blocks
    requires p in B
  {
    B[r := B[p] + Slice(m, r + |B[p]|, r + n)]
  }

  /** The blocks once it is moved there: the old bytes, and fresh ones up to the new size. */
  function MovedBlocks(B: Blocks, p: nat, r: nat, n: nat, m: Mem): Blocks
    requires p in B
  {
    CopiedBlocks(B, p, r, n, m) - {p}
  }

  lemma CopiedIs(B: Blocks, p: nat, r: nat, n: nat, m: Mem, m': Mem)
    requires p in B && r !in B && |B[p]| < n && r + n <= |m|
    ensures var B0 := B[r := Slice(m, r, r + n)];
            OpOk(B0, DoCopy(p, r)) && NextBlocks(B0, DoCopy(p, r), 0, m') == CopiedBlocks(B, p, r, n, m)
    ensures |CopiedBlocks(B, p, r, n, m)[r]| == n
  {
    assert Slice(m, r, r + n)[|B[p]|..] == Slice(m, r + |B[p]|, r + n);
  }

  lemma MovedStarts(B: Blocks, p: nat, r: nat, n: nat, m: Mem)
    requires p in B && r !in B
    ensures r in MovedBlocks(B, p, r, n, m) && MovedBlocks(B, p, r, n, m)[r] == CopiedBlocks(B, p, r, n, m)[r]
    ensures B[p] <= MovedBlocks(B, p, r, n, m)[r]
  {
  }

  /** The allocation and the copy of a growing resize. */
  lemma GrowCopied(h: Heap, B: Blocks, p: nat, n: nat, h0: Heap, r: nat, h1: Heap, base: nat, end: nat)
    requires Sound(h, B, base, end) && p in B && |B[p]| < n
    requires Step(h, DoAlloc(n), h0, r, false) && r != 0 && Step(h0, DoCopy(p, r), h1, 0, false)
    ensures r !in B && Sound(h1, CopiedBlocks(B, p, r, n, h0.mem), base, end)
    ensures |CopiedBlocks(B, p, r, n, h0.mem)[r]| == n
  {
    GrowAllocated(h, B, n, h0, r, base, end);
    CopiedIs(B, p, r, n, h0.mem, h1.mem);
    CopyStep(h0, B[r := Slice(h0.mem, r, r + n)], DoCopy(p, r), h1, 0, false, base, end);
  }

  lemma GrowAllocated(h: Heap, B: Blocks, n: nat, h0: Heap, r: nat, base: nat, end: nat)
    requires Sound(h, B, base, end) && Step(h, DoAlloc(n), h0, r, false) && r != 0
    ensures r !in B && r + n <= |h0.mem| && Sound(h0, B[r := Slice(h0.mem, r, r + n)], base, end)
  {
    AllocStep(h, B, DoAlloc(n), h0, r, false, base, end);
    assert Held(h0, B[r := Slice(h0.mem, r, r + n)], r);
  }

  /**
   A growing resize, from any state with exact back-links: the tiling, the sum of the sizes and every other block are
   kept, and the block that grew starts with its old bytes, in a place that was no block before.
   */
  lemma GrowFromExact(h: Heap, B: Blocks, p: nat, n: nat, h0: Heap, r: nat, h1: Heap, h2: Heap, base: nat, end: nat)
    requires Sound(h, B, base, end) && BackExact(h.segs) && p in B && |B[p]| < n
    requires Step(h, DoAlloc(n), h0, r, false) && r != 0 && Step(h0, DoCopy(p, r), h1, 0, false)
    requires Step(h1, DoFree(p), h2, 0, false)
    ensures Sound(h2, MovedBlocks(B, p, r, n, h0.mem), base, end) && SumSizes(h2.segs) == end - base
    ensures r !in B && |MovedBlocks(B, p, r, n, h0.mem)[r]| == n && B[p] <= MovedBlocks(B, p, r, n, h0.mem)[r]
  {
    GrowCopied(h, B, p, n, h0, r, h1, base, end);
    GrowIsSafe(h, B, p, n, h0, r, h1, CopiedBlocks(B, p, r, n, h0.mem), base, end);
    GrowFreed(h1, CopiedBlocks(B, p, r, n, h0.mem), p, h2, base, end);
    MovedStarts(B, p, r, n, h0.mem);
  }

  lemma GrowFreed(h1: Heap, B1: Blocks, p: nat, h2: Heap, base: nat, end: nat)
    requires Sound(h1, B1, base, end) && p in B1 && Step(h1, DoFree(p), h2, 0, false) && FreeSafe(h1, B1, p)
    ensures Sound(h2, B1 - {p}, base, end) && SumSizes(h2.segs) == end - base
  {
    FreeStep(h1, B1, DoFree(p), h2, 0, false, base, end);
    TiledSum(h2.segs, base, end);
  }

  /** The free of a growing resize is safe, although the allocation may just have broken a link. */
  lemma GrowIsSafe(h: Heap, B: Blocks, p: nat, n: nat, h0: Heap, r: nat, h1: Heap, B1: Blocks, base: nat, end: nat)
    requires Sound(h, B, base, end) && BackExact(h.segs) && p in B && |B[p]| < n && Sound(h1, B1, base, end)
    requires Step(h, DoAlloc(n), h0, r, false) && r != 0 && h1.segs == h0.segs
    ensures FreeSafe(h1, B1, p)
  {
    var i := SegOfBlock(h, B, base, end, p);
    ShownSpaced(h1.mem, h1.segs);
    TiledInside(h.segs, base, end, i);
    GrowIndex(h, p, n, h1.segs, r, h1.mem);
    ExactHarmless(h.segs, i, n, false, base, end);
    LinkOfChain(h1, AfterTake(h.segs, n, i), base, end);
  }

  // ---- no less will do

  /** A block that has the first of some bytes off the headers has all of them. */
  lemma BlockHasWords(segs: seq<Seg>, q: nat, n: nat, x: nat, l: nat, base: nat, end: nat)
    requires Tiled(segs, base, end) && HEADER <= q && Used(segs, q - HEADER, HEADER + n)
    requires OffHeaders(segs, x, l) && q <= x < q + n && x + l <= end
    ensures x + l <= q + n
  {
    var k :| 0 <= k < |segs| && segs[k].addr == q - HEADER && segs[k].size == HEADER + n && !segs[k].free;
    assert Meets(segs, k, end);
    if q + n < x + l {
      assert InHeader(segs, segs[k + 1].addr);
      assert false;
    }
  }

  /** A merge out of the chain, off the headers, changes the block it hits. */
  lemma StaleSpoils(h: Heap, p: nat, h': Heap, i: nat, q: nat, bytes: seq<bv8>, base: nat, end: nat)
    requires 0 < base && Tiled(h.segs, base, end) && end <= |h.mem| && Holds(h, q, bytes) && q - HEADER != p - HEADER
    requires LinkInMemory(h.segs, i, |h.mem|) && h.segs[i].addr == p - HEADER && !BackInChain(h.segs, i)
    requires FreedOver(h.mem, h.segs, i, h'.mem, h'.segs) && FreedBit(h.mem, h.segs, i)
    requires OffHeaders(Joined(h.segs, i), h.segs[i].prev + 8, 16) && h.segs[i].prev + HEADER <= end
    requires q <= h.segs[i].prev + 8 < q + |bytes|
    ensures !Holds(h', q, bytes)
  {
    JoinedTiled(h.segs, i, base, end);
    JoinedUsed(h.segs, i, q - HEADER, HEADER + |bytes|);
    BlockHasWords(Joined(h.segs, i), q, |bytes|, h.segs[i].prev + 8, 16, base, end);
    var x := FreedOutChanges(h.mem, h.segs, i, h'.mem, h'.segs);
    ByteSpoils(h, h', q, bytes, x);
  }

  lemma ByteSpoils(h: Heap, h': Heap, q: nat, bytes: seq<bv8>, x: nat)
    requires Holds(h, q, bytes) && q <= x < q + |bytes| && x < |h'.mem| && h'.mem[x] != h.mem[x]
    ensures !Holds(h', q, bytes)
  {
    assert h.mem[x] == h.mem[q..q + |bytes|][x - q];
    assert q + |bytes| <= |h'.mem| ==> h'.mem[x] == h'.mem[q..q + |bytes|][x - q];
  }

  lemma NotHeld(h: Heap, B: Blocks, q: nat, base: nat, end: nat)
    requires q in B && !Holds(h, q, B[q])
    ensures !Sound(h, B, base, end)
  {
    assert !Held(h, B, q);
  }

  /**
   The frees that are decided: the headers of the chain survive, or the size that is stored lies in the fields of a
   header.  What is left are stores that cut the border of a header, or hit the successor's.
   */
  ghost predicate Decided(h: Heap, p: nat, end: nat) {
    var i := SegOf(h, p);
    && LinkInMemory(h.segs, i, end)
    && (LinkOk(h.mem, h.segs, i) || HitsFields(Joined(h.segs, i), i, h.segs[i].prev))
  }

  /** The two words at `s` cut the border of a header of the chain. */
  ghost predicate CutsBorder(segs: seq<Seg>, s: nat) {
    exists k :: 0 <= k < |segs| && (s < segs[k].addr < s + 24 || segs[k].addr + 16 < s < segs[k].addr + 24)
  }

  lemma OverlapCuts(segs: seq<Seg>, i: nat, x: nat, limit: nat)
    requires Spaced(segs, limit) && LinksBelow(segs) && i < |segs| && !BackInChain(segs, i)
    requires var s := segs[i].prev; s + 8 <= x < s + 24 && InHeader(segs, x) && !HitsFields(segs, i, s)
    ensures CutsBorder(segs, segs[i].prev)
  {
    var s := segs[i].prev;
    var k :| 0 <= k < |segs| && segs[k].addr <= x < segs[k].addr + HEADER;
    SpacedIndex(segs, k, limit);
  }

  /** Where back-links point below, every free is decided unless its two words cut the border of a header. */
  lemma DecidedUnlessCut(h: Heap, p: nat, i: nat, base: nat, end: nat)
    requires Shown(h.mem, h.segs) && Tiled(h.segs, base, end) && LinksBelow(h.segs) && i == SegOf(h, p) < |h.segs|
    requires end <= |h.mem|
    ensures Decided(h, p, end) || (FreedBit(h.mem, h.segs, i) && CutsBorder(Joined(h.segs, i), h.segs[i].prev))
  {
    LinkBelow(h, i, base, end);
    if !Decided(h, p, end) {
      ShownSpaced(h.mem, h.segs);
      JoinedBelow(h.segs, i, |h.mem|);
      JoinedSame(h.segs, i);
      var s, joined := h.segs[i].prev, Joined(h.segs, i);
      var x: nat :| s + 8 <= x < s + 8 + 16 && InHeader(joined, x);
      OverlapCuts(joined, i, x, |h.mem|);
    }
  }

  /** Over a back-link into the chain that is not harmless the tiling is lost. */
  lemma HarmUntiles(h: Heap, B: Blocks, h': Heap, i: nat, base: nat, end: nat)
    requires Tiled(h.segs, base, end) && LinkInMemory(h.segs, i, |h.mem|) && BackInChain(h.segs, i)
    requires !Harmless(h.segs, i)
    requires FreedOver(h.mem, h.segs, i, h'.mem, h'.segs)
    ensures !Sound(h', B, base, end)
  {
    FreedInChain(h.mem, h.segs, i, h'.mem, h'.segs);
    FreeInChainTiled(h.segs, i, base, end);
  }

  /** A store into the fields of a header leaves a memory that does not show the chain. */
  lemma HitUnshows(h: Heap, B: Blocks, h': Heap, i: nat, base: nat, end: nat)
    requires LinkInMemory(h.segs, i, |h.mem|) && FreedOver(h.mem, h.segs, i, h'.mem, h'.segs)
    requires !LinkOk(h.mem, h.segs, i) && HitsFields(Joined(h.segs, i), i, h.segs[i].prev)
    ensures !Sound(h', B, base, end)
  {
    HeaderHit(h.mem, h.segs, i, h'.mem, h'.segs);
  }

  /** A free keeps the blocks exactly if it is safe. */
  lemma FreeSoundExactly(h: Heap, B: Blocks, op: Op, h': Heap, r: nat, base: nat, end: nat)
    requires Sound(h, B, base, end) && op.DoFree? && OpOk(B, op) && Step(h, op, h', r, false) && Decided(h, op.p, end)
    ensures Sound(h', B - {op.p}, base, end) <==> FreeSafe(h, B, op.p)
  {
    if FreeSafe(h, B, op.p) {
      FreeStep(h, B, op, h', r, false, base, end);
    } else {
      UnsafeBreaks(h, B, op.p, h', SegOf(h, op.p), base, end);
    }
  }

  /** The last way: the store sets a bit of another block. */
  lemma UnsafeOut(h: Heap, B: Blocks, p: nat, i: nat)
    requires i == SegOf(h, p) && i < |h.segs| && !FreeSafe(h, B, p)
    requires LinkOk(h.mem, h.segs, i) && !BackInChain(h.segs, i)
    ensures FreedBit(h.mem, h.segs, i) && !NoBlockAt(B, p, h.segs[i].prev + 8)
  {
  }

  /** Each way in which a free is not safe costs the heap its blocks. */
  lemma UnsafeBreaks(h: Heap, B: Blocks, p: nat, h': Heap, i: nat, base: nat, end: nat)
    requires Sound(h, B, base, end) && p in B && i == SegOf(h, p) && !FreeSafe(h, B, p) && Decided(h, p, end)
    requires LinkInMemory(h.segs, i, |h.mem|) && FreedOver(h.mem, h.segs, i, h'.mem, h'.segs)
    ensures !Sound(h', B - {p}, base, end)
  {
    if !LinkOk(h.mem, h.segs, i) {
      HitUnshows(h, B - {p}, h', i, base, end);
    } else if BackInChain(h.segs, i) {
      HarmUntiles(h, B - {p}, h', i, base, end);
    } else {
      UnsafeOut(h, B, p, i);
      HitBlock(h, B, p, h', i, base, end);
    }
  }

  lemma HitBlock(h: Heap, B: Blocks, p: nat, h': Heap, i: nat, base: nat, end: nat)
    requires Sound(h, B, base, end) && p in B && i == SegOf(h, p) && LinkInMemory(h.segs, i, end)
    requires LinkOk(h.mem, h.segs, i) && !BackInChain(h.segs, i) && FreedOver(h.mem, h.segs, i, h'.mem, h'.segs)
    requires FreedBit(h.mem, h.segs, i) && !NoBlockAt(B, p, h.segs[i].prev + 8)
    ensures !Sound(h', B - {p}, base, end)
  {
    var q :| q in B && q != p && HasByte(B, q, h.segs[i].prev + 8);
    assert Held(h, B, q) && Held(h, B, p);
    StaleSpoils(h, p, h', i, q, B[q], base, end);
    NotHeld(h', B - {p}, q, base, end);
  }

  /** One call of the code, from any sound state, keeps the blocks exactly if it is safe. */
  lemma StepSoundExactly(h: Heap, B: Blocks, op: Op, h': Heap, r: nat, base: nat, end: nat)
    requires Sound(h, B, base, end) && OpOk(B, op) && Step(h, op, h', r, false)
    requires op.DoFree? ==> Decided(h, op.p, end)
    ensures Sound(h', NextBlocks(B, op, r, h'.mem), base, end) <==> Safe(h, B, op)
  {
    if op.DoFree? {
      FreeSoundExactly(h, B, op, h', r, base, end);
    } else {
      StepKeeps(h, B, op, h', r, false, base, end);
    }
  }

  /** A growing resize of the code, from any sound state, keeps the blocks exactly if its free is safe. */
  lemma GrowSoundExactly(h: Heap, B: Blocks, p: nat, n: nat, h0: Heap, r: nat, h1: Heap, h2: Heap, base: nat, end: nat)
    requires Sound(h, B, base, end) && p in B && |B[p]| < n
    requires Step(h, DoAlloc(n), h0, r, false) && r != 0 && Step(h0, DoCopy(p, r), h1, 0, false)
    requires Step(h1, DoFree(p), h2, 0, false) && Decided(h1, p, end)
    ensures Sound(h2, MovedBlocks(B, p, r, n, h0.mem), base, end) <==> FreeSafe(h1, CopiedBlocks(B, p, r, n, h0.mem), p)
  {
    GrowCopied(h, B, p, n, h0, r, h1, base, end);
    FreeSoundExactly(h1, CopiedBlocks(B, p, r, n, h0.mem), DoFree(p), h2, 0, base, end);
  }

  // ------------------------------------------------------------------------- whole runs

  /** One call: its operation, what it returned, and the heap it left. */
  datatype Event = Event(op: Op, result: nat, after: Heap)

  /** The events are a run from heap `h` whose callers own blocks `B`. */
  ghost predicate IsRun(h: Heap, B: Blocks, events: seq<Event>, repaired: bool)
    decreases |events|
  {
    events != [] ==>
      var e := events[0];
      && OpOk(B, e.op) && Step(h, e.op, e.after, e.result, repaired)
      && IsRun(e.after, NextBlocks(B, e.op, e.result, e.after.mem), events[1..], repaired)
  }

  /** Every call of the run is safe when it is made. */
  ghost predicate SafeRun(h: Heap, B: Blocks, events: seq<Event>, repaired: bool)
    requires IsRun(h, B, events, repaired)
    decreases |events|
  {
    events != [] ==>
      var e := events[0];
      && Safe(h, B, e.op)
      && SafeRun(e.after, NextBlocks(B, e.op, e.result, e.after.mem), events[1..], repaired)
  }

  /** Only the last segment of the chain is split. */
  ghost predicate AtEnd(h: Heap, op: Op) {
    match op
    case DoAlloc(n) => AllocAtEnd(h.segs, n)
    case DoShrink(p, n) => SegOf(h, p) < |h.segs| && ShrinkAtEnd(h.segs, SegOf(h, p), n)
    case _ => true
  }

  /** Every call of the run that splits a segment splits the last one. */
  ghost predicate SplitsAtEnd(h: Heap, events: seq<Event>)
    decreases |events|
  {
    events != [] ==> AtEnd(h, events[0].op) && SplitsAtEnd(events[0].after, events[1..])
  }

  function LastHeap(h: Heap, events: seq<Event>): Heap {
    if events == [] then h else events[|events| - 1].after
  }

  /** The blocks after a run, as independent pieces of memory. */
  ghost function LastBlocks(h: Heap, B: Blocks, events: seq<Event>, repaired: bool): Blocks
    requires IsRun(h, B, events, repaired)
    decreases |events|
  {
    if events == [] then B
    else
      var e := events[0];
      LastBlocks(e.after, NextBlocks(B, e.op, e.result, e.after.mem), events[1..], repaired)
  }

  /** A new heap has exact back-links and holds no blocks. */
  lemma NewHeap(m: Mem, base: nat, size: nat)
    requires 0 < base && HEADER <= size && base + size <= |m| && Shown(m, [Seg(base, size, true, 0)])
    ensures var h := Heap(m, [Seg(base, size, true, 0)]);
            Sound(h, map[], base, base + size) && BackExact(h.segs) && NoAdjacentFree(h.segs) && LinksBelow(h.segs)
  {
    var segs := [Seg(base, size, true, 0)];
    assert Meets(segs, 0, base + size) && BackAt(segs, 0);
  }

  /**
   In every run of allocations, frees, resizes and stores by owners in which each call is safe when it is made: the
   chain tiles the heap, its sizes add up to the heap, and every block holds exactly what its owner last stored, at
   its own place.
   */
  lemma {:induction false} RunRefinesBlocks(h: Heap, B: Blocks, events: seq<Event>, repaired: bool, base: nat, end: nat)
    requires Sound(h, B, base, end) && IsRun(h, B, events, repaired) && SafeRun(h, B, events, repaired)
    ensures Sound(LastHeap(h, events), LastBlocks(h, B, events, repaired), base, end)
    ensures SumSizes(LastHeap(h, events).segs) == end - base
    decreases |events|
  {
    if events == [] {
      TiledSum(h.segs, base, end);
    } else {
      var e := events[0];
      StepKeeps(h, B, e.op, e.after, e.result, repaired, base, end);
      RunRefinesBlocks(e.after, NextBlocks(B, e.op, e.result, e.after.mem), events[1..], repaired, base, end);
      assert LastHeap(h, events) == LastHeap(e.after, events[1..]);
    }
  }

  lemma StepBelow(h: Heap, op: Op, h': Heap, r: nat, repaired: bool)
    requires Step(h, op, h', r, repaired) && LinksBelow(h.segs)
    ensures LinksBelow(h'.segs)
  {
    ShownSpaced(h.mem, h.segs);
    match op {
      case DoAlloc(n) => AllocBelow(h.segs, n, repaired, |h.mem|);
      case DoFree(p) =>
        var i := SegOf(h, p);
        FreedChainIs(h.mem, h.segs, i, h'.mem, h'.segs);
        FreedBelow(h.segs, i, FreedBit(h.mem, h.segs, i), |h.mem|);
      case DoShrink(p, n) => ShrinkBelow(h.segs, SegOf(h, p), n, repaired, |h.mem|);
      case DoCopy(_, _) =>
      case DoWrite(_, _, _) =>
    }
  }

  /** In every run, safe or not, all back-links keep pointing below their own segments. */
  lemma {:induction false} RunKeepsBelow(h: Heap, B: Blocks, events: seq<Event>, repaired: bool)
    requires IsRun(h, B, events, repaired) && LinksBelow(h.segs)
    ensures LinksBelow(LastHeap(h, events).segs)
    decreases |events|
  {
    if events != [] {
      var e := events[0];
      StepBelow(h, e.op, e.after, e.result, repaired);
      RunKeepsBelow(e.after, NextBlocks(B, e.op, e.result, e.after.mem), events[1..], repaired);
      assert LastHeap(h, events) == LastHeap(e.after, events[1..]);
    }
  }

  /**
   The first call that is not safe, in any run of the code from a new heap: it loses the tiling, a header or a live
   block, unless its two words cut the border of a header.
   */
  lemma FirstUnsafeCall(h: Heap, B: Blocks, events: seq<Event>, op: Op, h': Heap, r: nat, base: nat, end: nat)
    requires Sound(h, B, base, end) && LinksBelow(h.segs)
    requires IsRun(h, B, events, false) && SafeRun(h, B, events, false)
    requires var t, C := LastHeap(h, events), LastBlocks(h, B, events, false); OpOk(C, op) && Step(t, op, h', r, false)
    ensures var t, C := LastHeap(h, events), LastBlocks(h, B, events, false);
            || (Sound(h', NextBlocks(C, op, r, h'.mem), base, end) <==> Safe(t, C, op))
            || (op.DoFree? && SegOf(t, op.p) < |t.segs| && FreedBit(t.mem, t.segs, SegOf(t, op.p)) &&
                CutsBorder(Joined(t.segs, SegOf(t, op.p)), t.segs[SegOf(t, op.p)].prev))
  {
    var t, C := LastHeap(h, events), LastBlocks(h, B, events, false);
    RunRefinesBlocks(h, B, events, false, base, end);
    RunKeepsBelow(h, B, events, false);
    if op.DoFree? { DecidedUnlessCut(t, op.p, SegOf(t, op.p), base, end); }
    if op.DoFree? ==> Decided(t, op.p, end) { StepSoundExactly(t, C, op, h', r, base, end); }
  }

  /** A call that repairs its split, or splits only the last segment, keeps back-links exact and free segments apart. */
  lemma StepExact(h: Heap, B: Blocks, op: Op, h': Heap, r: nat, repaired: bool, base: nat, end: nat)
    requires Sound(h, B, base, end) && BackExact(h.segs) && OpOk(B, op) && Step(h, op, h', r, repaired)
    requires repaired || AtEnd(h, op)
    ensures BackExact(h'.segs) && (NoAdjacentFree(h.segs) ==> NoAdjacentFree(h'.segs))
  {
    match op {
      case DoAlloc(n) =>
        AllocExact(h.segs, n, repaired, base, end);
        if NoAdjacentFree(h.segs) { AllocNoAdjacent(h.segs, n, repaired); }
      case DoFree(p) =>
        var i := SegOfBlock(h, B, base, end, p);
        ExactHarmless(h.segs, i, 0, repaired, base, end);
        FreedInChain(h.mem, h.segs, i, h'.mem, h'.segs);
        FreeExact(h.segs, i, base, end);
        if NoAdjacentFree(h.segs) { FreeNoAdjacent(h.segs, i, base, end); }
      case DoShrink(p, n) =>
        var i := SegOfBlock(h, B, base, end, p);
        ShrinkExact(h.segs, i, n, repaired, base, end);
      case DoCopy(_, _) =>
      case DoWrite(_, _, _) =>
    }
  }

  /** Such a run is safe from the start to the end, and leaves back-links exact and free segments apart. */
  lemma {:induction false} ExactRunIsSafe(h: Heap, B: Blocks, events: seq<Event>, repaired: bool, base: nat, end: nat)
    requires Sound(h, B, base, end) && BackExact(h.segs) && IsRun(h, B, events, repaired)
    requires repaired || SplitsAtEnd(h, events)
    ensures SafeRun(h, B, events, repaired) && BackExact(LastHeap(h, events).segs)
    ensures NoAdjacentFree(h.segs) ==> NoAdjacentFree(LastHeap(h, events).segs)
    decreases |events|
  {
    if events != [] {
      var e := events[0];
      ExactIsSafe(h, B, e.op, base, end);
      StepKeeps(h, B, e.op, e.after, e.result, repaired, base, end);
      StepExact(h, B, e.op, e.after, e.result, repaired, base, end);
      ExactRunIsSafe(e.after, NextBlocks(B, e.op, e.result, e.after.mem), events[1..], repaired, base, end);
      assert LastHeap(h, events) == LastHeap(e.after, events[1..]);
    }
  }

  // ------------------------------------------------------------------------- growing while others call

  /** The call leaves the blocks at `p` and `r` to their owner. */
  predicate Elsewhere(op: Op, p: nat, r: nat) {
    match op
    case DoAlloc(_) => true
    case DoFree(q) => q != p && q != r
    case DoShrink(q, _) => q != p && q != r
    case DoCopy(_, q) => q != p && q != r
    case DoWrite(q, _, _) => q != p && q != r
  }

  /** One byte of the copy from `p` to `r`, as it stands in memory at that time. */
  ghost predicate Carries(h: Heap, op: Op, p: nat, r: nat, size: nat) {
    op.DoWrite? && op.p == r && op.k < size && p + op.k < |h.mem| && op.b == h.mem[p + op.k]
  }

  /** Every call of the run is a byte of the copy, or leaves both blocks alone. */
  ghost predicate CopyUnderWay(h: Heap, events: seq<Event>, p: nat, r: nat, size: nat)
    decreases |events|
  {
    events != [] ==>
      && (Carries(h, events[0].op, p, r, size) || Elsewhere(events[0].op, p, r))
      && CopyUnderWay(events[0].after, events[1..], p, r, size)
  }

  /** Byte `k` is copied at some time. */
  ghost predicate Carried(events: seq<Event>, r: nat, k: nat) {
    exists j :: 0 <= j < |events| && events[j].op.DoWrite? && events[j].op.p == r && events[j].op.k == k
  }

  /** Byte `k` of the new block is that of the old one. */
  ghost predicate SameByte(B: Blocks, p: nat, r: nat, k: nat) {
    p in B && r in B && k < |B[p]| && k < |B[r]| && B[r][k] == B[p][k]
  }

  /** One step of a copy under way: the old block and the size of the new one stay. */
  lemma BlocksStay(h: Heap, B: Blocks, e: Event, p: nat, r: nat, base: nat, end: nat)
    requires Sound(h, B, base, end) && OpOk(B, e.op) && Step(h, e.op, e.after, e.result, false)
    requires p in B && r in B && p != r && (Carries(h, e.op, p, r, |B[p]|) || Elsewhere(e.op, p, r))
    ensures var B' := NextBlocks(B, e.op, e.result, e.after.mem);
            p in B' && r in B' && B'[p] == B[p] && |B'[r]| == |B[r]| && (Elsewhere(e.op, p, r) ==> B'[r] == B[r])
  {
    if e.op.DoAlloc? { AllocStep(h, B, e.op, e.after, e.result, false, base, end); }
  }

  /** No copied byte is lost. */
  lemma BytesStay(h: Heap, B: Blocks, e: Event, p: nat, r: nat, k: nat, base: nat, end: nat)
    requires Sound(h, B, base, end) && OpOk(B, e.op) && Step(h, e.op, e.after, e.result, false)
    requires p in B && r in B && p != r && |B[p]| <= |B[r]| && k < |B[p]|
    requires Carries(h, e.op, p, r, |B[p]|) || Elsewhere(e.op, p, r)
    requires SameByte(B, p, r, k) || (e.op.DoWrite? && e.op.p == r && e.op.k == k)
    ensures SameByte(NextBlocks(B, e.op, e.result, e.after.mem), p, r, k)
  {
    BlocksStay(h, B, e, p, r, base, end);
    if Carries(h, e.op, p, r, |B[p]|) {
      assert Held(h, B, p);
      assert h.mem[p + e.op.k] == h.mem[p..p + |B[p]|][e.op.k];
    }
  }

  lemma {:induction false} CopyKeepsBlocks(h: Heap, B: Blocks, events: seq<Event>, p: nat, r: nat, base: nat, end: nat)
    requires Sound(h, B, base, end) && IsRun(h, B, events, false) && SafeRun(h, B, events, false)
    requires p in B && r in B && p != r && CopyUnderWay(h, events, p, r, |B[p]|)
    ensures var B' := LastBlocks(h, B, events, false); p in B' && r in B' && B'[p] == B[p] && |B'[r]| == |B[r]|
    decreases |events|
  {
    if events != [] {
      var e := events[0];
      BlocksStay(h, B, e, p, r, base, end);
      StepKeeps(h, B, e.op, e.after, e.result, false, base, end);
      CopyKeepsBlocks(e.after, NextBlocks(B, e.op, e.result, e.after.mem), events[1..], p, r, base, end);
    }
  }

  lemma {:induction false} CopyKeepsByte(
    h: Heap, B: Blocks, events: seq<Event>, p: nat, r: nat, k: nat, base: nat, end: nat)
    requires Sound(h, B, base, end) && IsRun(h, B, events, false) && SafeRun(h, B, events, false)
    requires p in B && r in B && p != r && |B[p]| <= |B[r]| && k < |B[p]| && CopyUnderWay(h, events, p, r, |B[p]|)
    requires SameByte(B, p, r, k) || Carried(events, r, k)
    ensures SameByte(LastBlocks(h, B, events, false), p, r, k)
    decreases |events|
  {
    if events != [] {
      var e := events[0];
      BlocksStay(h, B, e, p, r, base, end);
      StepKeeps(h, B, e.op, e.after, e.result, false, base, end);
      if SameByte(B, p, r, k) || (e.op.DoWrite? && e.op.p == r && e.op.k == k) {
        BytesStay(h, B, e, p, r, k, base, end);
      } else {
        CarriedLater(events, r, k);
      }
      CopyKeepsByte(e.after, NextBlocks(B, e.op, e.result, e.after.mem), events[1..], p, r, k, base, end);
    }
  }

  lemma CarriedLater(events: seq<Event>, r: nat, k: nat)
    requires Carried(events, r, k)
    requires !(events[0].op.DoWrite? && events[0].op.p == r && events[0].op.k == k)
    ensures Carried(events[1..], r, k)
  {
    var j :| 0 <= j < |events| && events[j].op.DoWrite? && events[j].op.p == r && events[j].op.k == k;
    assert events[1..][j - 1] == events[j];
  }

  /**
   Between the allocation and the free of a growing resize the code holds no lock.  Whatever safe calls other owners
   make meanwhile, and in whatever order the bytes are copied: once all are copied, the new block starts with the
   bytes of the old one, and so it does after the old one is freed.
   */
  lemma InterleavedMove(
    h: Heap, B: Blocks, events: seq<Event>, p: nat, r: nat, h': Heap, base: nat, end: nat)
    requires Sound(h, B, base, end) && IsRun(h, B, events, false) && SafeRun(h, B, events, false)
    requires p in B && r in B && p != r && |B[p]| <= |B[r]| && CopyUnderWay(h, events, p, r, |B[p]|)
    requires forall k :: 0 <= k < |B[p]| ==> Carried(events, r, k)
    requires Step(LastHeap(h, events), DoFree(p), h', 0, false)
    requires FreeSafe(LastHeap(h, events), LastBlocks(h, B, events, false), p)
    ensures var B' := LastBlocks(h, B, events, false) - {p};
            Sound(h', B', base, end) && r in B' && |B'[r]| == |B[r]| && B[p] <= B'[r]
  {
    var B1 := LastBlocks(h, B, events, false);
    RunRefinesBlocks(h, B, events, false, base, end);
    CopyKeepsBlocks(h, B, events, p, r, base, end);
    forall k | 0 <= k < |B[p]| ensures B1[r][k] == B[p][k] {
      CopyKeepsByte(h, B, events, p, r, k, base, end);
    }
    FreeStep(LastHeap(h, events), B1, DoFree(p), h', 0, false, base, end);
  }

  // ------------------------------------------------------------------------- free undoes allocate

  /** The first merge of the free undoes the split, back-links included. */
  lemma SplitRejoined(segs: seq<Seg>, n: nat, repaired: bool)
    requires BackExact(segs) && AllocChain(segs, n, repaired).1 != 0
    ensures var t, i := AllocChain(segs, n, repaired).0, FirstFit(segs, 0, n + HEADER + HEADER);
            i < |segs| && i < |t| && MergedNext(Freed(t, i), i) == segs
  {
    var t, i := AllocChain(segs, n, repaired).0, FirstFit(segs, 0, n + HEADER + HEADER);
    if i + 1 < |segs| { assert BackAt(segs, i + 1); }
    assert MergedNext(Freed(t, i), i) == segs;
  }

  /** Freeing what was just allocated restores the chain, whichever split was used. */
  lemma FreeUndoesAllocate(segs: seq<Seg>, n: nat, repaired: bool, base: nat, end: nat)
    requires Exact(segs, base, end) && NoAdjacentFree(segs) && AllocChain(segs, n, repaired).1 != 0
    ensures var t, i := AllocChain(segs, n, repaired).0, FirstFit(segs, 0, n + HEADER + HEADER);
            && i < |t| && t[i].addr + HEADER == AllocChain(segs, n, repaired).1
            && BackInChain(t, i) && FreeChain(t, i) == segs
  {
    var t, i := AllocChain(segs, n, repaired).0, FirstFit(segs, 0, n + HEADER + HEADER);
    SplitRejoined(segs, n, repaired);
    assert BackAt(segs, i);
    NeighbourHarmless(segs, i, base, end);
    if segs[i].prev != 0 { IndexOfAlike(segs, t, segs[i].prev, i); }
    if i > 0 { assert !FreePair(segs, i - 1); }
  }
}
