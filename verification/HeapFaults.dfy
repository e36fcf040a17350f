/**
 Where the kernel heap goes wrong, shown by calls on the object itself.

 A plan is a list of calls with the chain that each must leave.  Carrying out a plan on a new heap gives a run, and
 the chains that the plan foretells.
 */
module HeapFaults {
  import opened HeapMemory
  import opened HeapChain
  import opened HeapCalls
  import opened HeapBytes
  import opened KernelHeap
  import opened HeapRuns

  // ------------------------------------------------------------------------- requests that fail too early

  /**
   An allocation fails exactly if no free segment has room for two headers and the request, or the first that has is
   within two bytes of that size; in the second case a later, larger segment is not looked at.
   */
  lemma AllocFailsExactly(segs: seq<Seg>, n: nat)
    ensures AllocChain(segs, n, false).1 == 0 <==>
            || (forall k :: 0 <= k < |segs| && segs[k].free ==> segs[k].size < n + 2 * HEADER)
            || (exists k :: 0 <= k < |segs| && segs[k].free && n + 2 * HEADER <= segs[k].size < n + 2 * HEADER + 2 &&
                  forall j :: 0 <= j < k && segs[j].free ==> segs[j].size < n + 2 * HEADER)
  {
  }

  // ------------------------------------------------------------------------- requests near the largest number

  /** What a request searches for is computed in 64 bits: it wraps for the 64 largest requests, and only for those. */
  lemma HugeRequestWraps(n: nat)
    requires n < TWO64
    ensures Sum64(Sum64(n, HEADER), HEADER) == n + HEADER + HEADER <==> n + HEADER + HEADER < TWO64
    ensures n + HEADER + HEADER >= TWO64 ==> Sum64(Sum64(n, HEADER), HEADER) < HEADER + HEADER
  {
  }

  /** The new header of such a request starts less than a header before or behind the old one's start. */
  lemma HugeAddress(n: nat, a: nat)
    requires n < TWO64 <= n + HEADER + HEADER && HEADER <= a < TWO63
    ensures Sum64(a, Sum64(n, HEADER)) + HEADER == a + Sum64(Sum64(n, HEADER), HEADER)
    ensures Apart(a, Sum64(a, Sum64(n, HEADER))) <==> n + HEADER + HEADER == TWO64
    ensures Sum64(n, HEADER) < HEADER || Sum64(n, HEADER) >= TWO63
  {
  }

  /** No chain that memory shows has a segment at `a`. */
  ghost predicate Unlisted(m: Mem, a: nat) {
    forall t {:trigger HasHeader(t, a)} :: Shown(m, t) ==> !HasHeader(t, a)
  }

  lemma OddSize(m: Mem, a: nat)
    requires a + HEADER <= |m| < TWO63 && (Get64(m, a + 8) < HEADER || Get64(m, a + 8) >= TWO63)
    ensures Unlisted(m, a)
  {
    forall t: seq<Seg> {:trigger HasHeader(t, a)} | Shown(m, t) ensures !HasHeader(t, a) {
      if HasHeader(t, a) {
        var k :| 0 <= k < |t| && t[k].addr == a;
        ShownAt(m, t, k);
        ShownSpaced(m, t);
        assert false;
      }
    }
  }

  /** The stores of a split behind the first `size` bytes, where the new header may lie over the old one. */
  method SplitOver(heap: DynamicMemoryAllocator, segment: nat, size: nat, newSegment: nat)
    requires segment + HEADER <= heap.mem.Length < TWO63 && newSegment + HEADER <= heap.mem.Length && size < TWO64
    modifies heap.mem
    ensures Get64(heap.mem[..], segment + 8) == size
  {
    FillHeader(heap, segment, size, newSegment);
    heap.StoreWords(segment, size, newSegment);
  }

  /** The stores into the new header, wherever it is. */
  method FillHeader(heap: DynamicMemoryAllocator, segment: nat, size: nat, newSegment: nat)
    requires segment + HEADER <= heap.mem.Length < TWO63 && newSegment + HEADER <= heap.mem.Length && size < TWO64
    modifies heap.mem
  {
    heap.StoreSignature(newSegment);
    heap.StoreFlag(newSegment, FreeBit(heap.mem[..], segment));
    StoreRest(heap, segment + 8, size, newSegment + 8);
    CopyWord(heap, segment + 16, newSegment + 16);
    heap.Store64(newSegment + 24, segment);
  }

  /** The size that is left, in 64 bits. */
  method StoreRest(heap: DynamicMemoryAllocator, from: nat, size: nat, to: nat)
    requires from + 8 <= heap.mem.Length && to + 8 <= heap.mem.Length && size < TWO64
    modifies heap.mem
    ensures heap.mem[..] == Put64(old(heap.mem[..]), to, Sum64(Get64(old(heap.mem[..]), from), TWO64 - size))
  {
    heap.Store64(to, Sum64(Get64(heap.mem[..], from), TWO64 - size));
  }

  method CopyWord(heap: DynamicMemoryAllocator, from: nat, to: nat)
    requires from + 8 <= heap.mem.Length && to + 8 <= heap.mem.Length
    modifies heap.mem
    ensures heap.mem[..] == Put64(old(heap.mem[..]), to, Get64(old(heap.mem[..]), from))
  {
    WordBelow(heap.mem[..], from);
    heap.Store64(to, Get64(heap.mem[..], from));
  }

  /** Such a request is granted at this segment. */
  method GrantHuge(heap: DynamicMemoryAllocator, segment: nat, n: nat) returns (ptr: nat)
    requires n < TWO64 <= n + HEADER + HEADER && HEADER <= segment && segment + HEADER <= heap.mem.Length < TWO63
    requires segment + Sum64(Sum64(n, HEADER), HEADER) <= heap.mem.Length
    modifies heap.mem
    ensures ptr == segment + HEADER && Unlisted(heap.mem[..], segment)
  {
    HugeAddress(n, segment);
    SplitOver(heap, segment, Sum64(n, HEADER), Sum64(segment, Sum64(n, HEADER)));
    heap.StoreFlag(segment, false);
    OddSize(heap.mem[..], segment);
    return segment + HEADER;
  }

  /**
   One of the 64 largest requests: the first free segment of a few bytes is granted, as if it had room, and its header
   is spoilt, so that no chain in memory has the segment any more.
   */
  method AllocateHuge(heap: DynamicMemoryAllocator, n: nat) returns (ptr: nat)
    requires heap.Valid() && HEADER <= heap.firstSegment && n < TWO64 <= n + HEADER + HEADER
    modifies heap.mem
    ensures var need := Sum64(Sum64(n, HEADER), HEADER);
            var i := FirstFit(heap.segs, 0, need);
            if i < |heap.segs| && heap.segs[i].size - need >= MIN_CAPACITY * 2
            then ptr == heap.segs[i].addr + HEADER && Unlisted(heap.mem[..], heap.segs[i].addr)
            else ptr == 0 && heap.mem[..] == old(heap.mem[..])
  {
    var newSegmentSize := Sum64(n, HEADER);
    var need := Sum64(newSegmentSize, HEADER);
    ghost var i := FirstFit(heap.segs, 0, need);
    var segment := heap.FindFreeSegment(need);
    if segment == 0 {
      return 0;
    }
    var h := heap.ReadSegment(segment, i);
    if h.size - need < MIN_CAPACITY * 2 {
      return 0;
    }
    assert i > 0 ==> heap.segs[0].addr + heap.segs[0].size <= heap.segs[i].addr;
    ptr := GrantHuge(heap, segment, n);
  }

  // ------------------------------------------------------------------------- plans

  type Sizes = map<nat, nat>

  /** A call, its result, and the chain and the sizes of the owned blocks after it. */
  datatype Stage = Stage(op: Op, result: nat, chain: seq<Seg>, sizes: Sizes)

  ghost predicate Sized(B: Blocks, sizes: Sizes) {
    B.Keys == sizes.Keys && forall p :: p in B ==> |B[p]| == sizes[p]
  }

  function NextSizes(sizes: Sizes, op: Op, r: nat): Sizes {
    match op
    case DoAlloc(n) => if r == 0 then sizes else sizes[r := n]
    case DoFree(p) => sizes - {p}
    case _ => sizes
  }

  /** From a chain and owned blocks, the call of a stage can be made and leaves what the stage says. */
  ghost predicate Leads(c: seq<Seg>, sizes: Sizes, s: Stage) {
    && s.sizes == NextSizes(sizes, s.op, s.result)
    && match s.op
       case DoAlloc(n) => n + HEADER + HEADER < TWO64 && AllocChain(c, n, false) == (s.chain, s.result)
       case DoFree(p) => p in sizes && HEADER <= p && Frees(c, IndexOf(c, p - HEADER, 0), s.chain)
       case _ => false
  }

  ghost predicate Frees(c: seq<Seg>, i: nat, t: seq<Seg>) {
    BackInChain(c, i) && t == FreeChain(c, i)
  }

  function ChainAt(base: nat, size: nat, plan: seq<Stage>, k: nat): seq<Seg>
    requires k <= |plan|
  {
    if k == 0 then [Seg(base, size, true, 0)] else plan[k - 1].chain
  }

  function SizesAt(plan: seq<Stage>, k: nat): Sizes
    requires k <= |plan|
  {
    if k == 0 then map[] else plan[k - 1].sizes
  }

  ghost predicate Sure(base: nat, size: nat, plan: seq<Stage>, k: nat)
    requires k < |plan|
  {
    Leads(ChainAt(base, size, plan, k), SizesAt(plan, k), plan[k])
  }

  lemma SureFrom(base: nat, size: nat, plan: seq<Stage>, k: nat, c: seq<Seg>, sizes: Sizes, s: Stage)
    requires k < |plan| && ChainAt(base, size, plan, k) == c && SizesAt(plan, k) == sizes && plan[k] == s
    requires Leads(c, sizes, s)
    ensures Sure(base, size, plan, k)
  {
  }

  /** The sizes of the blocks follow the plan. */
  lemma SizedNext(h: Heap, B: Blocks, sizes: Sizes, s: Stage, h': Heap)
    requires Sized(B, sizes) && Leads(h.segs, sizes, s) && Step(h, s.op, h', s.result, false)
    requires Spaced(h'.segs, |h'.mem|)
    ensures OpOk(B, s.op) && Sized(NextBlocks(B, s.op, s.result, h'.mem), s.sizes)
  {
    if s.op.DoAlloc? && s.result != 0 {
      var i := FirstFit(h.segs, 0, s.op.n + HEADER + HEADER);
      assert h'.segs[i].addr + HEADER == s.result && h'.segs[i].size == s.op.n + HEADER;
    }
  }

  /** The blocks after the first call of a run. */
  ghost function FirstBlocks(h: Heap, B: Blocks, run: seq<Event>): Blocks
    requires run != [] && IsRun(h, B, run, false)
  {
    NextBlocks(B, run[0].op, run[0].result, run[0].after.mem)
  }

  /** A run is its first call and the run after it. */
  lemma RunTail(h: Heap, B: Blocks, run: seq<Event>, C: Blocks)
    requires run != [] && IsRun(h, B, run, false) && C == FirstBlocks(h, B, run)
    ensures IsRun(run[0].after, C, run[1..], false) && LastHeap(h, run) == LastHeap(run[0].after, run[1..])
    ensures LastBlocks(h, B, run, false) == LastBlocks(run[0].after, C, run[1..], false)
  {
  }

  /** If the run after the first call goes on with one more call, so does the run. */
  lemma RunGrows(h: Heap, B: Blocks, run: seq<Event>, C: Blocks, e: Event, last: Blocks)
    requires run != [] && IsRun(h, B, run, false) && C == FirstBlocks(h, B, run)
    requires var rest := run[1..] + [e];
             IsRun(run[0].after, C, rest, false) && LastBlocks(run[0].after, C, rest, false) == last
    ensures IsRun(h, B, run + [e], false) && LastBlocks(h, B, run + [e], false) == last
  {
    assert (run + [e])[1..] == run[1..] + [e];
  }

  lemma RunOne(h: Heap, B: Blocks, e: Event)
    requires OpOk(B, e.op) && Step(h, e.op, e.after, e.result, false)
    ensures IsRun(h, B, [e], false) && LastBlocks(h, B, [e], false) == NextBlocks(B, e.op, e.result, e.after.mem)
  {
    assert [e][1..] == [];
  }

  lemma {:induction false} RunSnoc(h: Heap, B: Blocks, run: seq<Event>, e: Event)
    requires IsRun(h, B, run, false) && OpOk(LastBlocks(h, B, run, false), e.op)
    requires Step(LastHeap(h, run), e.op, e.after, e.result, false)
    ensures IsRun(h, B, run + [e], false) && LastHeap(h, run + [e]) == e.after
    ensures LastBlocks(h, B, run + [e], false) == NextBlocks(LastBlocks(h, B, run, false), e.op, e.result, e.after.mem)
    decreases |run|
  {
    if run == [] {
      RunOne(h, B, e);
      assert run + [e] == [e];
    } else {
      var C := FirstBlocks(h, B, run);
      RunTail(h, B, run, C);
      RunSnoc(run[0].after, C, run[1..], e);
      RunGrows(h, B, run, C, e, NextBlocks(LastBlocks(h, B, run, false), e.op, e.result, e.after.mem));
    }
  }

  /** A stage foretells what its call does. */
  lemma StepLeads(h: Heap, sizes: Sizes, s: Stage, h': Heap, r: nat)
    requires Leads(h.segs, sizes, s) && Step(h, s.op, h', r, false)
    ensures h'.segs == s.chain && Step(h, s.op, h', s.result, false)
  {
    if s.op.DoFree? { FreedInChain(h.mem, h.segs, SegOf(h, s.op.p), h'.mem, h'.segs); }
  }

  /** A run from heap `start` has followed the first `k` stages of a plan, and left heap `h`. */
  ghost predicate Followed(start: Heap, plan: seq<Stage>, k: nat, run: seq<Event>, h: Heap) {
    && k == |run| <= |plan| && IsRun(start, map[], run, false) && LastHeap(start, run) == h
    && Sized(LastBlocks(start, map[], run, false), SizesAt(plan, k))
    && (forall j {:trigger OnPlan(plan, run, j)} :: 0 <= j < k ==> OnPlan(plan, run, j))
  }

  ghost predicate OnPlan(plan: seq<Stage>, run: seq<Event>, j: nat) {
    j < |run| && j < |plan| && run[j].op == plan[j].op && run[j].result == plan[j].result &&
      run[j].after.segs == plan[j].chain
  }

  lemma FollowedNext(start: Heap, plan: seq<Stage>, k: nat, run: seq<Event>, h: Heap, h': Heap)
    requires Followed(start, plan, k, run, h) && k < |plan| && Leads(h.segs, SizesAt(plan, k), plan[k])
    requires Step(h, plan[k].op, h', plan[k].result, false) && Spaced(h'.segs, |h'.mem|) && h'.segs == plan[k].chain
    ensures Followed(start, plan, k + 1, run + [Event(plan[k].op, plan[k].result, h')], h')
  {
    var e := Event(plan[k].op, plan[k].result, h');
    SizedNext(h, LastBlocks(start, map[], run, false), SizesAt(plan, k), plan[k], h');
    RunSnoc(start, map[], run, e);
    forall j | 0 <= j < k + 1 ensures OnPlan(plan, run + [e], j) {
      if j < k { assert OnPlan(plan, run, j); }
    }
  }

  /** One stage of a plan, on the object. */
  method Advance(heap: DynamicMemoryAllocator, plan: seq<Stage>, k: nat, ghost start: Heap, ghost run: seq<Event>)
      returns (ghost run': seq<Event>)
    requires heap.Valid() && k < |plan| && Followed(start, plan, k, run, StateOf(heap))
    requires Leads(heap.segs, SizesAt(plan, k), plan[k])
    modifies heap.mem, heap`view, heap`segs
    ensures heap.Valid() && heap.segs == plan[k].chain && Followed(start, plan, k + 1, run', StateOf(heap))
  {
    ghost var h := StateOf(heap);
    ValidShown(heap);
    LeadsCallable(h, SizesAt(plan, k), plan[k]);
    var r := Call(heap, plan[k].op);
    ValidShown(heap);
    ShownSpaced(heap.mem[..], heap.segs);
    StepLeads(h, SizesAt(plan, k), plan[k], StateOf(heap), r);
    FollowedNext(start, plan, k, run, h, StateOf(heap));
    run' := run + [Event(plan[k].op, plan[k].result, StateOf(heap))];
  }

  lemma LeadsCallable(h: Heap, sizes: Sizes, s: Stage)
    requires Shown(h.mem, h.segs) && Leads(h.segs, sizes, s)
    ensures Callable(h, s.op) && (s.op.DoFree? ==> LinkOk(h.mem, h.segs, SegOf(h, s.op.p)))
  {
    ShownSpaced(h.mem, h.segs);
    if s.op.DoFree? { LinkOfSpaced(h.mem, h.segs, SegOf(h, s.op.p)); }
  }

  /** The calls of a plan, on a new heap: a run that leaves the chains foretold. */
  method CarryOut(mem: array<bv8>, base: nat, size: nat, plan: seq<Stage>)
      returns (heap: DynamicMemoryAllocator, ghost start: Heap, ghost run: seq<Event>)
    requires 0 < base && HEADER <= size && base + size <= mem.Length < TWO63
    requires forall k :: 0 <= k < |plan| ==> Sure(base, size, plan, k)
    modifies mem
    ensures fresh(heap) && heap.mem == mem && heap.Valid() && heap.segs == ChainAt(base, size, plan, |plan|)
    ensures start.segs == [Seg(base, size, true, 0)] && |start.mem| == mem.Length && Shown(start.mem, start.segs)
    ensures Followed(start, plan, |plan|, run, StateOf(heap))
  {
    heap := new DynamicMemoryAllocator(mem, base, size);
    ValidShown(heap);
    start, run := StateOf(heap), [];
    for k := 0 to |plan|
      invariant heap.mem == mem && heap.Valid() && heap.segs == ChainAt(base, size, plan, k)
      invariant Followed(start, plan, k, run, StateOf(heap))
    {
      assert Sure(base, size, plan, k);
      run := Advance(heap, plan, k, start, run);
    }
  }

  /** The result of an allocation that splits segment `i`, segment by segment. */
  lemma AllocIs(segs: seq<Seg>, n: nat, i: nat, t: seq<Seg>)
    requires i < |segs| && segs[i].free && segs[i].size >= n + 2 * HEADER + 2
    requires forall k :: 0 <= k < i ==> !(segs[k].free && segs[k].size >= n + 2 * HEADER)
    requires |t| == |segs| + 1 && t[i] == segs[i].(size := n + HEADER, free := false)
    requires t[i + 1] == Seg(segs[i].addr + n + HEADER, segs[i].size - n - HEADER, true, segs[i].addr)
    requires (forall k :: 0 <= k < i ==> t[k] == segs[k]) && (forall k :: i + 1 < k < |t| ==> t[k] == segs[k - 1])
    ensures AllocChain(segs, n, false) == (t, segs[i].addr + HEADER)
  {
    assert FirstFit(segs, 0, n + HEADER + HEADER) == i;
    assert AllocChain(segs, n, false).0 == t;
  }

  // ------------------------------------------------------------------------- a larger segment is not looked at

  /** Allocate 42 and 68 bytes, free the first, and allocate 10: 74 bytes are found free first, two short of a split. */
  function EarlyPlan(base: nat, size: nat): seq<Stage>
    requires size >= 1000
  {
    var rest := Seg(base + 174, size - 174, true, base + 74);
    var hole := [Seg(base, 74, true, 0), Seg(base + 74, 100, false, base), rest];
    [Stage(DoAlloc(42), base + 32, [Seg(base, 74, false, 0), Seg(base + 74, size - 74, true, base)],
           map[base + 32 := 42]),
     Stage(DoAlloc(68), base + 106, [Seg(base, 74, false, 0), Seg(base + 74, 100, false, base), rest],
           map[base + 32 := 42, base + 106 := 68]),
     Stage(DoFree(base + 32), 0, hole, map[base + 106 := 68]),
     Stage(DoAlloc(10), 0, hole, map[base + 106 := 68])]
  }

  lemma EarlySure(base: nat, size: nat, k: nat)
    requires base > 0 && size >= 1000 && k < 4
    ensures Sure(base, size, EarlyPlan(base, size), k)
  {
    var plan := EarlyPlan(base, size);
    if k == 0 {
      AllocIs(ChainAt(base, size, plan, 0), 42, 0, plan[0].chain);
    } else if k == 1 {
      AllocIs(plan[0].chain, 68, 1, plan[1].chain);
    } else if k == 2 {
      assert IndexOf(plan[1].chain, base, 0) == 0;
      assert FreeChain(plan[1].chain, 0) == plan[2].chain;
    } else {
      assert FirstFit(plan[2].chain, 0, 10 + HEADER + HEADER) == 0;
    }
  }

  /**
   On a new heap of at least 1000 bytes, four calls lead to a request that fails although a later segment has room.
   */
  method LargerSegmentIgnored(mem: array<bv8>, base: nat, size: nat)
      returns (heap: DynamicMemoryAllocator, ghost start: Heap, ghost run: seq<Event>)
    requires 0 < base && 1000 <= size && base + size <= mem.Length < TWO63
    modifies mem
    ensures heap.Valid() && start.segs == [Seg(base, size, true, 0)] && IsRun(start, map[], run, false) && |run| == 4
    ensures run[3].op == DoAlloc(10) && run[3].result == 0 && run[3].after.segs == run[2].after.segs
    ensures var segs := run[2].after.segs; |segs| == 3 && segs[2].free && AllocChain(segs[2..], 10, false).1 != 0
  {
    var plan := EarlyPlan(base, size);
    forall k | 0 <= k < |plan| ensures Sure(base, size, plan, k) { EarlySure(base, size, k); }
    heap, start, run := CarryOut(mem, base, size, plan);
    assert OnPlan(plan, run, 2) && OnPlan(plan, run, 3);
    assert FirstFit(plan[2].chain[2..], 0, 10 + HEADER + HEADER) == 0;
  }

  // ------------------------------------------------------------------------- a live block is lost

  /** The chains of a run that allocates 200, 100, frees the first, allocates 10, 10, frees the first and the second. */
  function LossyRun(base: nat, size: nat, step: nat): seq<Seg>
    requires size >= 1000
  {
    var rest := Seg(base + 364, size - 364, true, base + 232);
    if step == 0 then [Seg(base, size, true, 0)]
    else if step == 1 then [Seg(base, 232, false, 0), Seg(base + 232, size - 232, true, base)]
    else if step == 2 then [Seg(base, 232, false, 0), Seg(base + 232, 132, false, base), rest]
    else if step == 3 then [Seg(base, 232, true, 0), Seg(base + 232, 132, false, base), rest]
    else if step == 4 then
      [Seg(base, 42, false, 0), Seg(base + 42, 190, true, base), Seg(base + 232, 132, false, base), rest]
    else if step == 5 then
      [Seg(base, 42, false, 0), Seg(base + 42, 42, false, base), Seg(base + 84, 148, true, base + 42),
       Seg(base + 232, 132, false, base), rest]
    else if step == 6 then
      [Seg(base, 42, true, 0), Seg(base + 42, 42, false, base), Seg(base + 84, 148, true, base + 42),
       Seg(base + 232, 132, false, base), rest]
    else if step == 7 then [Seg(base, size - 190, true, 0)]
    else [Seg(base, 132, false, 0), Seg(base + 132, size - 322, true, base)]
  }

  lemma LossyStart(base: nat, size: nat)
    requires base > 0 && size >= 1000
    ensures AllocChain(LossyRun(base, size, 0), 200, false) == (LossyRun(base, size, 1), base + 32)
    ensures AllocChain(LossyRun(base, size, 1), 100, false) == (LossyRun(base, size, 2), base + 264)
    ensures FreeChain(LossyRun(base, size, 2), 0) == LossyRun(base, size, 3)
  {
    AllocIs(LossyRun(base, size, 0), 200, 0, LossyRun(base, size, 1));
    AllocIs(LossyRun(base, size, 1), 100, 1, LossyRun(base, size, 2));
  }

  lemma LossyMiddle(base: nat, size: nat)
    requires base > 0 && size >= 1000
    ensures AllocChain(LossyRun(base, size, 3), 10, false) == (LossyRun(base, size, 4), base + 32)
    ensures AllocChain(LossyRun(base, size, 4), 10, false) == (LossyRun(base, size, 5), base + 74)
  {
    AllocIs(LossyRun(base, size, 3), 10, 0, LossyRun(base, size, 4));
    AllocIs(LossyRun(base, size, 4), 10, 1, LossyRun(base, size, 5));
  }

  lemma LossyFree(base: nat, size: nat)
    requires base > 0 && size >= 1000
    ensures IndexOf(LossyRun(base, size, 5), base, 0) == 0 && Frees(LossyRun(base, size, 5), 0, LossyRun(base, size, 6))
  {
    assert FreeChain(LossyRun(base, size, 5), 0) == LossyRun(base, size, 6);
  }

  lemma LossyEnd(base: nat, size: nat)
    requires base > 0 && size >= 1000
    ensures FreeChain(LossyRun(base, size, 6), 3) == LossyRun(base, size, 7)
    ensures AllocChain(LossyRun(base, size, 7), 100, false) == (LossyRun(base, size, 8), base + 32)
  {
    var s := LossyRun(base, size, 6);
    var joined := MergedNext(Freed(s, 3), 3);
    assert joined == [s[0], s[1], s[2], Seg(base + 232, size - 232, true, base)];
    assert IndexOf(joined, base, 0) == 0;
    AllocIs(LossyRun(base, size, 7), 100, 0, LossyRun(base, size, 8));
  }

  /** The calls of that run, ending with an allocation of 100 bytes. */
  function LossyStage(base: nat, size: nat, k: nat): Stage
    requires size >= 1000 && k < 8
  {
    var (op, r) :=
      if k == 0 then (DoAlloc(200), base + 32)
      else if k == 1 then (DoAlloc(100), base + 264)
      else if k == 2 then (DoFree(base + 32), 0)
      else if k == 3 then (DoAlloc(10), base + 32)
      else if k == 4 then (DoAlloc(10), base + 74)
      else if k == 5 then (DoFree(base + 32), 0)
      else if k == 6 then (DoFree(base + 264), 0)
      else (DoAlloc(100), base + 32);
    Stage(op, r, LossyRun(base, size, k + 1), LossySizes(base, k + 1))
  }

  function LossySizes(base: nat, k: nat): Sizes {
    if k == 0 then map[]
    else if k == 1 then map[base + 32 := 200]
    else if k == 2 then map[base + 32 := 200, base + 264 := 100]
    else if k == 3 then map[base + 264 := 100]
    else if k == 4 then map[base + 264 := 100, base + 32 := 10]
    else if k == 5 then map[base + 264 := 100, base + 32 := 10, base + 74 := 10]
    else if k == 6 then map[base + 264 := 100, base + 74 := 10]
    else if k == 7 then map[base + 74 := 10]
    else map[base + 74 := 10, base + 32 := 100]
  }

  function LossyPlan(base: nat, size: nat): (plan: seq<Stage>)
    requires size >= 1000
    ensures |plan| == 8
  {
    seq(8, k requires 0 <= k < 8 => LossyStage(base, size, k))
  }

  lemma LossySizesNext(base: nat, size: nat, k: nat)
    requires size >= 1000 && k < 8
    ensures var s := LossyStage(base, size, k); s.sizes == NextSizes(LossySizes(base, k), s.op, s.result)
  {
  }

  lemma LossyLeads(base: nat, size: nat, k: nat)
    requires base > 0 && size >= 1000 && k < 8
    ensures Leads(LossyRun(base, size, k), LossySizes(base, k), LossyStage(base, size, k))
  {
    LossySizesNext(base, size, k);
    if k < 3 {
      LossyStart(base, size);
      if k == 2 { assert IndexOf(LossyRun(base, size, 2), base, 0) == 0; }
    } else if k < 5 {
      LossyMiddle(base, size);
    } else if k == 5 {
      LossyFree(base, size);
    } else {
      LossyEnd(base, size);
      if k == 6 { assert IndexOf(LossyRun(base, size, 6), base + 232, 0) == 3; }
    }
  }

  lemma LossyBefore(base: nat, size: nat, k: nat)
    requires size >= 1000 && k < 8
    ensures ChainAt(base, size, LossyPlan(base, size), k) == LossyRun(base, size, k)
    ensures SizesAt(LossyPlan(base, size), k) == LossySizes(base, k)
    ensures LossyPlan(base, size)[k] == LossyStage(base, size, k)
  {
    if k > 0 { assert LossyPlan(base, size)[k - 1] == LossyStage(base, size, k - 1); }
  }

  lemma LossySure(base: nat, size: nat, k: nat)
    requires base > 0 && size >= 1000 && k < 8
    ensures Sure(base, size, LossyPlan(base, size), k)
  {
    LossyLeads(base, size, k);
    LossyBefore(base, size, k);
    SureFrom(base, size, LossyPlan(base, size), k, LossyRun(base, size, k), LossySizes(base, k),
             LossyStage(base, size, k));
  }

  /**
   After the seventh call the chain does not tile the heap and has lost the segment of a block that is still owned.
   */
  lemma LossyLoses(base: nat, size: nat)
    requires size >= 1000
    ensures var lost := LossyRun(base, size, 7); !Tiled(lost, base, base + size) && !Used(lost, base + 42, HEADER + 10)
  {
    assert !Meets(LossyRun(base, size, 7), 0, base + size);
  }

  /**
   The code's split loses a live block.  On a new heap of at least 1000 bytes, eight calls by owners lead to a chain
   that no longer tiles the heap and has no segment for a block that is still owned, and then to two owned blocks
   that overlap.
   */
  method LiveBlockLost(mem: array<bv8>, base: nat, size: nat)
      returns (heap: DynamicMemoryAllocator, ghost start: Heap, ghost run: seq<Event>)
    requires 0 < base && 1000 <= size && base + size <= mem.Length < TWO63
    modifies mem
    ensures heap.Valid() && heap.segs == LossyRun(base, size, 8)
    ensures start.segs == [Seg(base, size, true, 0)] && IsRun(start, map[], run, false) && |run| == 8
    ensures !Tiled(run[6].after.segs, base, base + size) && !Used(run[6].after.segs, base + 74 - HEADER, HEADER + 10)
    ensures var B := LastBlocks(start, map[], run, false);
            && base + 32 in B && base + 74 in B && |B[base + 32]| == 100 && |B[base + 74]| == 10
            && base + 32 < base + 74 < base + 32 + 100
  {
    var plan := LossyPlan(base, size);
    forall k | 0 <= k < |plan| ensures Sure(base, size, plan, k) { LossySure(base, size, k); }
    heap, start, run := CarryOut(mem, base, size, plan);
    assert OnPlan(plan, run, 6);
    LossyLoses(base, size);
  }

  // ------------------------------------------------------------------------- a live block is written over

  /**
   The chains of a run that allocates 100, 400 and 100, frees the second, allocates 100 and 10, frees the first and
   the fourth, and allocates 180.  The header of the fourth block leaves the chain while the back-link of the third
   still names it, and ends up in the last block.
   */
  function StaleChain(base: nat, size: nat, step: nat): seq<Seg>
    requires size >= 1000
  {
    var third, rest := Seg(base + 564, 132, false, base + 132), Seg(base + 696, size - 696, true, base + 564);
    var first, fourth := Seg(base, 132, false, 0), Seg(base + 132, 132, false, base);
    var fifth, hole := Seg(base + 264, 42, false, base + 132), Seg(base + 306, 258, true, base + 264);
    if step == 0 then [Seg(base, size, true, 0)]
    else if step == 1 then [first, Seg(base + 132, size - 132, true, base)]
    else if step == 2 then [first, Seg(base + 132, 432, false, base), Seg(base + 564, size - 564, true, base + 132)]
    else if step == 3 then [first, Seg(base + 132, 432, false, base), third, rest]
    else if step == 4 then [first, Seg(base + 132, 432, true, base), third, rest]
    else if step == 5 then [first, fourth, Seg(base + 264, 300, true, base + 132), third, rest]
    else if step == 6 then [first, fourth, fifth, hole, third, rest]
    else if step == 7 then [first.(free := true), fourth, fifth, hole, third, rest]
    else if step == 8 then [Seg(base, 264, true, 0), fifth.(prev := base), hole, third, rest]
    else [Seg(base, 212, false, 0), Seg(base + 212, 52, true, base), fifth.(prev := base), hole, third, rest]
  }

  function StaleStage(base: nat, size: nat, k: nat): Stage
    requires size >= 1000 && k < 9
  {
    var (op, r) :=
      if k == 0 then (DoAlloc(100), base + 32)
      else if k == 1 then (DoAlloc(400), base + 164)
      else if k == 2 then (DoAlloc(100), base + 596)
      else if k == 3 then (DoFree(base + 164), 0)
      else if k == 4 then (DoAlloc(100), base + 164)
      else if k == 5 then (DoAlloc(10), base + 296)
      else if k == 6 then (DoFree(base + 32), 0)
      else if k == 7 then (DoFree(base + 164), 0)
      else (DoAlloc(180), base + 32);
    Stage(op, r, StaleChain(base, size, k + 1), StaleSizes(base, k + 1))
  }

  function StaleSizes(base: nat, k: nat): Sizes {
    var a, b, c, e := base + 32, base + 164, base + 596, base + 296;
    if k == 0 then map[]
    else if k == 1 then map[a := 100]
    else if k == 2 then map[a := 100, b := 400]
    else if k == 3 then map[a := 100, b := 400, c := 100]
    else if k == 4 then map[a := 100, c := 100]
    else if k == 5 then map[a := 100, c := 100, b := 100]
    else if k == 6 then map[a := 100, c := 100, b := 100, e := 10]
    else if k == 7 then map[c := 100, b := 100, e := 10]
    else if k == 8 then map[c := 100, e := 10]
    else map[c := 100, e := 10, a := 180]
  }

  function StalePlan(base: nat, size: nat): (plan: seq<Stage>)
    requires size >= 1000
    ensures |plan| == 9
  {
    seq(9, k requires 0 <= k < 9 => StaleStage(base, size, k))
  }

  lemma StaleSizesNext(base: nat, size: nat, k: nat)
    requires size >= 1000 && k < 9
    ensures var s := StaleStage(base, size, k); s.sizes == NextSizes(StaleSizes(base, k), s.op, s.result)
  {
  }

  lemma StaleAllocs(base: nat, size: nat)
    requires base > 0 && size >= 1000
    ensures AllocChain(StaleChain(base, size, 0), 100, false) == (StaleChain(base, size, 1), base + 32)
    ensures AllocChain(StaleChain(base, size, 1), 400, false) == (StaleChain(base, size, 2), base + 164)
    ensures AllocChain(StaleChain(base, size, 2), 100, false) == (StaleChain(base, size, 3), base + 596)
  {
    AllocIs(StaleChain(base, size, 0), 100, 0, StaleChain(base, size, 1));
    AllocIs(StaleChain(base, size, 1), 400, 1, StaleChain(base, size, 2));
    AllocIs(StaleChain(base, size, 2), 100, 2, StaleChain(base, size, 3));
  }

  lemma StaleReuses(base: nat, size: nat)
    requires base > 0 && size >= 1000
    ensures AllocChain(StaleChain(base, size, 4), 100, false) == (StaleChain(base, size, 5), base + 164)
    ensures AllocChain(StaleChain(base, size, 5), 10, false) == (StaleChain(base, size, 6), base + 296)
  {
    AllocIs(StaleChain(base, size, 4), 100, 1, StaleChain(base, size, 5));
    AllocIs(StaleChain(base, size, 5), 10, 2, StaleChain(base, size, 6));
  }

  lemma StaleCovers(base: nat, size: nat)
    requires base > 0 && size >= 1000
    ensures AllocChain(StaleChain(base, size, 8), 180, false) == (StaleChain(base, size, 9), base + 32)
  {
    AllocIs(StaleChain(base, size, 8), 180, 0, StaleChain(base, size, 9));
  }

  lemma StaleFrees(base: nat, size: nat)
    requires base > 0 && size >= 1000
    ensures IndexOf(StaleChain(base, size, 3), base + 132, 0) == 1
    ensures Frees(StaleChain(base, size, 3), 1, StaleChain(base, size, 4))
    ensures IndexOf(StaleChain(base, size, 6), base, 0) == 0
    ensures Frees(StaleChain(base, size, 6), 0, StaleChain(base, size, 7))
    ensures IndexOf(StaleChain(base, size, 7), base + 132, 0) == 1
    ensures Frees(StaleChain(base, size, 7), 1, StaleChain(base, size, 8))
  {
    assert IndexOf(StaleChain(base, size, 3), base, 0) == 0;
    assert FreeChain(StaleChain(base, size, 3), 1) == StaleChain(base, size, 4);
    assert FreeChain(StaleChain(base, size, 6), 0) == StaleChain(base, size, 7);
    assert IndexOf(StaleChain(base, size, 7), base, 0) == 0;
    assert FreeChain(StaleChain(base, size, 7), 1) == StaleChain(base, size, 8);
  }

  lemma StaleLeads(base: nat, size: nat, k: nat)
    requires base > 0 && size >= 1000 && k < 9
    ensures Leads(StaleChain(base, size, k), StaleSizes(base, k), StaleStage(base, size, k))
  {
    StaleSizesNext(base, size, k);
    if k < 3 {
      StaleAllocs(base, size);
    } else if k == 3 || k == 6 || k == 7 {
      StaleFrees(base, size);
    } else if k < 6 {
      StaleReuses(base, size);
    } else {
      StaleCovers(base, size);
    }
  }

  lemma StaleBefore(base: nat, size: nat, k: nat)
    requires size >= 1000 && k < 9
    ensures ChainAt(base, size, StalePlan(base, size), k) == StaleChain(base, size, k)
    ensures SizesAt(StalePlan(base, size), k) == StaleSizes(base, k)
    ensures StalePlan(base, size)[k] == StaleStage(base, size, k)
  {
    if k > 0 { assert StalePlan(base, size)[k - 1] == StaleStage(base, size, k - 1); }
  }

  lemma StaleSure(base: nat, size: nat, k: nat)
    requires base > 0 && size >= 1000 && k < 9
    ensures Sure(base, size, StalePlan(base, size), k)
  {
    StaleLeads(base, size, k);
    StaleBefore(base, size, k);
    SureFrom(base, size, StalePlan(base, size), k, StaleChain(base, size, k), StaleSizes(base, k),
             StaleStage(base, size, k));
  }

  /** The call frees only over a harmless back-link. */
  ghost predicate Gentle(c: seq<Seg>, op: Op) {
    op.DoFree? ==> HEADER <= op.p && Harmless(c, IndexOf(c, op.p - HEADER, 0))
  }

  function ChainBefore(h: Heap, run: seq<Event>, k: nat): seq<Seg>
    requires k <= |run|
  {
    if k == 0 then h.segs else run[k - 1].after.segs
  }

  ghost predicate GentleAt(h: Heap, run: seq<Event>, k: nat) {
    k < |run| && Gentle(ChainBefore(h, run, k), run[k].op)
  }

  lemma GentleIsSafe(h: Heap, B: Blocks, op: Op)
    requires Shown(h.mem, h.segs) && Gentle(h.segs, op)
    ensures Safe(h, B, op)
  {
    ShownSpaced(h.mem, h.segs);
    if op.DoFree? { LinkOfSpaced(h.mem, h.segs, SegOf(h, op.p)); }
  }

  lemma {:induction false} GentleRunIsSafe(h: Heap, B: Blocks, run: seq<Event>)
    requires IsRun(h, B, run, false)
    requires forall k {:trigger GentleAt(h, run, k)} :: 0 <= k < |run| ==> GentleAt(h, run, k)
    ensures SafeRun(h, B, run, false)
    decreases |run|
  {
    if run != [] {
      var e := run[0];
      assert GentleAt(h, run, 0);
      GentleIsSafe(h, B, e.op);
      forall k | 0 <= k < |run[1..]| ensures GentleAt(e.after, run[1..], k) {
        assert GentleAt(h, run, k + 1);
      }
      GentleRunIsSafe(e.after, NextBlocks(B, e.op, e.result, e.after.mem), run[1..]);
    }
  }

  ghost predicate GentleStage(base: nat, size: nat, plan: seq<Stage>, k: nat) {
    k < |plan| && Gentle(ChainAt(base, size, plan, k), plan[k].op)
  }

  lemma GentlePlan(base: nat, size: nat, plan: seq<Stage>, start: Heap, run: seq<Event>, h: Heap, k: nat)
    requires start.segs == [Seg(base, size, true, 0)] && Followed(start, plan, |plan|, run, h)
    requires GentleStage(base, size, plan, k)
    ensures GentleAt(start, run, k)
  {
    assert OnPlan(plan, run, k) && (k > 0 ==> OnPlan(plan, run, k - 1));
  }

  lemma GentlePlanIsSafe(base: nat, size: nat, plan: seq<Stage>, start: Heap, run: seq<Event>, h: Heap)
    requires start.segs == [Seg(base, size, true, 0)] && Followed(start, plan, |plan|, run, h)
    requires forall k {:trigger GentleStage(base, size, plan, k)} :: 0 <= k < |plan| ==>
               GentleStage(base, size, plan, k)
    ensures SafeRun(start, map[], run, false)
  {
    forall k | 0 <= k < |run| ensures GentleAt(start, run, k) {
      assert GentleStage(base, size, plan, k);
      GentlePlan(base, size, plan, start, run, h, k);
    }
    GentleRunIsSafe(start, map[], run);
  }

  /** A plan that frees only over harmless back-links keeps all blocks. */
  lemma PlanSound(base: nat, size: nat, plan: seq<Stage>, start: Heap, run: seq<Event>, h: Heap)
    requires 0 < base && HEADER <= size && base + size <= |start.mem| && start.segs == [Seg(base, size, true, 0)]
    requires Shown(start.mem, start.segs) && Followed(start, plan, |plan|, run, h)
    requires forall k {:trigger GentleStage(base, size, plan, k)} :: 0 <= k < |plan| ==>
               GentleStage(base, size, plan, k)
    ensures Sound(h, LastBlocks(start, map[], run, false), base, base + size)
  {
    GentlePlanIsSafe(base, size, plan, start, run, h);
    NewHeap(start.mem, base, size);
    assert start == Heap(start.mem, start.segs);
    RunRefinesBlocks(start, map[], run, false, base, base + size);
  }

  lemma StaleGentle(base: nat, size: nat, k: nat)
    requires base > 0 && size >= 1000 && k < 9
    ensures GentleStage(base, size, StalePlan(base, size), k)
  {
    StaleBefore(base, size, k);
    if k == 3 {
      StaleFrees(base, size);
      assert IndexOf(StaleChain(base, size, 3), base, 0) == 0;
    } else if k == 6 {
      StaleFrees(base, size);
    } else if k == 7 {
      StaleFrees(base, size);
      assert IndexOf(StaleChain(base, size, 7), base, 0) == 0;
    }
  }

  /** The third block takes the rest of the heap over; its back-link leads out of the chain, into the last block. */
  lemma StaleThird(base: nat, size: nat)
    requires base > 0 && size >= 1000
    ensures var c := StaleChain(base, size, 9);
            && IndexOf(c, base + 564, 0) == 4 && c[4].prev == base + 132 && !BackInChain(c, 4)
            && Joined(c, 4) == c[..4] + [Seg(base + 564, size - 564, true, base + 132)]
            && OffHeaders(Joined(c, 4), base + 139, 17)
  {
    var c := StaleChain(base, size, 9);
    IndexIs(c, base + 564, 4);
    IndexIs(c, base + 132, 6);
    var joined := c[..4] + [Seg(base + 564, size - 564, true, base + 132)];
    forall x | base + 139 <= x < base + 156 ensures !InHeader(joined, x) {
      forall k | 0 <= k < 5 ensures !(joined[k].addr <= x < joined[k].addr + HEADER) {}
    }
  }

  /** The back-link of the block at `p`, segment `i` of the chain, leads out of the chain and off its headers. */
  ghost predicate IntoPayload(h: Heap, p: nat, i: nat, s: nat) {
    && i == SegOf(h, p) && LinkInMemory(h.segs, i, |h.mem|) && !BackInChain(h.segs, i) && s == h.segs[i].prev
    && OffHeaders(Joined(h.segs, i), s + 7, 17)
  }

  lemma StaleInto(h: Heap, base: nat, size: nat)
    requires base > 0 && size >= 1000 && base + size <= |h.mem| && h.segs == StaleChain(base, size, 9)
    ensures IntoPayload(h, base + 596, 4, base + 132)
  {
    StaleThird(base, size);
  }

  lemma {:induction false} CoverNone(segs: seq<Seg>, x: nat, from: nat)
    requires from <= |segs| && !InHeader(segs, x)
    ensures Cover(segs, x, from) == |segs|
    decreases |segs| - from
  {
    if from < |segs| { CoverNone(segs, x, from + 1); }
  }

  lemma PayloadBit(h: Heap, p: nat, i: nat, s: nat)
    requires IntoPayload(h, p, i, s) && h.mem[s + 7] == 1
    ensures FreedBit(h.mem, h.segs, i)
  {
    CoverNone(Joined(h.segs, i), s + 7, 0);
  }

  /** The byte that the owner of block `q` stores sets the free bit where the back-link of block `p` leads. */
  lemma OwnerSetsBit(h: Heap, B: Blocks, p: nat, i: nat, s: nat, q: nat, k: nat, h1: Heap, base: nat, end: nat)
    requires Sound(h, B, base, end) && IntoPayload(h, p, i, s) && q in B && k < |B[q]| && q + k == s + 7
    requires Step(h, DoWrite(q, k, 1), h1, 0, false)
    ensures Sound(h1, B[q := B[q][k := 1]], base, end)
    ensures h1.segs == h.segs && |h1.mem| == |h.mem| && FreedBit(h1.mem, h1.segs, i)
  {
    WriteStep(h, B, DoWrite(q, k, 1), h1, 0, false, base, end);
    assert h1.mem[s + 7] == 1;
    PayloadBit(h1, p, i, s);
  }

  /** A free whose back-link leads into the block of another owner changes that block, once that owner stores a byte. */
  lemma StoreSpoils(h: Heap, B: Blocks, p: nat, i: nat, s: nat, q: nat, k: nat, h1: Heap, h2: Heap, base: nat, end: nat)
    requires Sound(h, B, base, end) && IntoPayload(h, p, i, s) && s + HEADER <= end
    requires p in B && q in B && q != p && k + 1 < |B[q]| && q + k == s + 7
    requires Step(h, DoWrite(q, k, 1), h1, 0, false) && Step(h1, DoFree(p), h2, 0, false)
    ensures !Holds(h2, q, B[q][k := 1])
  {
    OwnerSetsBit(h, B, p, i, s, q, k, h1, base, end);
    assert Held(h, B, p) && Held(h1, B[q := B[q][k := 1]], q);
    StaleSpoils(h1, p, h2, i, q, B[q][k := 1], base, end);
  }

  lemma StaleOwned(base: nat, size: nat, B: Blocks)
    requires size >= 1000 && Sized(B, SizesAt(StalePlan(base, size), 9))
    ensures base + 32 in B && |B[base + 32]| == 180 && base + 596 in B
  {
    assert StalePlan(base, size)[8] == StaleStage(base, size, 8);
    assert base + 32 in StaleSizes(base, 9) && base + 596 in StaleSizes(base, 9);
  }

  /** A run of `n` calls from `start` has left heap `h` and blocks `B`. */
  ghost predicate Ran(start: Heap, run: seq<Event>, n: nat, h: Heap, B: Blocks) {
    && |run| == n && IsRun(start, map[], run, false)
    && LastHeap(start, run) == h && LastBlocks(start, map[], run, false) == B
  }

  /** A run goes on with one more call. */
  lemma OneMore(start: Heap, run: seq<Event>, n: nat, op: Op, h: Heap, B: Blocks, h': Heap) returns (run': seq<Event>)
    requires Ran(start, run, n, h, B) && OpOk(B, op) && Step(h, op, h', 0, false)
    ensures Ran(start, run', n + 1, h', NextBlocks(B, op, 0, h'.mem))
  {
    RunSnoc(start, map[], run, Event(op, 0, h'));
    run' := run + [Event(op, 0, h')];
  }

  /** A run goes on with a store by the owner of block `p` and a free of block `q`. */
  lemma StoreAndFreeMore(start: Heap, run: seq<Event>, n: nat, h: Heap, B: Blocks, p: nat, k: nat, b: bv8, h1: Heap,
                         q: nat, h2: Heap) returns (run': seq<Event>)
    requires Ran(start, run, n, h, B) && p in B && k < |B[p]| && q in B && q != p
    requires Step(h, DoWrite(p, k, b), h1, 0, false) && Step(h1, DoFree(q), h2, 0, false)
    ensures Ran(start, run', n + 2, h2, B[p := B[p][k := b]] - {q})
  {
    run' := OneMore(start, run, n, DoWrite(p, k, b), h, B, h1);
    run' := OneMore(start, run', n + 1, DoFree(q), h1, B[p := B[p][k := b]], h2);
  }

  method ReachStale(mem: array<bv8>, base: nat, size: nat)
      returns (heap: DynamicMemoryAllocator, ghost start: Heap, ghost run: seq<Event>, ghost B: Blocks)
    requires 0 < base && 1000 <= size && base + size <= mem.Length < TWO63
    modifies mem
    ensures fresh(heap) && heap.mem == mem && heap.Valid() && IntoPayload(StateOf(heap), base + 596, 4, base + 132)
    ensures start.segs == [Seg(base, size, true, 0)] && Ran(start, run, 9, StateOf(heap), B)
    ensures Sound(StateOf(heap), B, base, base + size) && base + 32 in B && |B[base + 32]| == 180 && base + 596 in B
  {
    var plan := StalePlan(base, size);
    forall k | 0 <= k < |plan| ensures Sure(base, size, plan, k) { StaleSure(base, size, k); }
    heap, start, run := CarryOut(mem, base, size, plan);
    forall k | 0 <= k < |plan| ensures GentleStage(base, size, plan, k) { StaleGentle(base, size, k); }
    PlanSound(base, size, plan, start, run, StateOf(heap));
    B := LastBlocks(start, map[], run, false);
    StaleOwned(base, size, B);
    StaleInto(StateOf(heap), base, size);
  }

  /** The owner of block `q` stores a byte in it, and block `p` is freed. */
  method StoreAndFree(heap: DynamicMemoryAllocator, p: nat, ghost i: nat, ghost s: nat, q: nat, k: nat,
                      ghost B: Blocks, ghost base: nat, ghost end: nat) returns (ghost h1: Heap)
    requires heap.Valid() && Sound(StateOf(heap), B, base, end) && IntoPayload(StateOf(heap), p, i, s)
    requires p in B && q in B && q != p && k + 1 < |B[q]| && q + k == s + 7 && s + HEADER <= end
    modifies heap.mem, heap`view, heap`segs
    ensures heap.Valid() && Step(old(StateOf(heap)), DoWrite(q, k, 1), h1, 0, false)
    ensures Step(h1, DoFree(p), StateOf(heap), 0, false) && !Holds(StateOf(heap), q, B[q][k := 1])
  {
    ghost var h := StateOf(heap);
    ghost var j := SegOfBlock(h, B, base, end, q);
    CallWrite(heap, q, k, 1);
    h1 := StateOf(heap);
    CallFree(heap, p);
    StoreSpoils(h, B, p, i, s, q, k, h1, StateOf(heap), base, end);
  }

  /** A run that has led to such a back-link goes on, and spoils block `q`. */
  method Spoil(heap: DynamicMemoryAllocator, p: nat, ghost i: nat, ghost s: nat, q: nat, k: nat, ghost start: Heap,
               ghost run: seq<Event>, ghost n: nat, ghost B: Blocks, ghost base: nat, ghost end: nat)
      returns (ghost run': seq<Event>, ghost B': Blocks)
    requires heap.Valid() && Sound(StateOf(heap), B, base, end) && IntoPayload(StateOf(heap), p, i, s)
    requires p in B && q in B && q != p && k + 1 < |B[q]| && q + k == s + 7 && s + HEADER <= end
    requires Ran(start, run, n, StateOf(heap), B)
    modifies heap.mem, heap`view, heap`segs
    ensures heap.Valid() && Ran(start, run', n + 2, StateOf(heap), B')
    ensures q in B' && |B'[q]| == |B[q]| && !Holds(StateOf(heap), q, B'[q])
  {
    ghost var h := StateOf(heap);
    ghost var h1 := StoreAndFree(heap, p, i, s, q, k, B, base, end);
    run' := StoreAndFreeMore(start, run, n, h, B, q, k, 1, h1, p, StateOf(heap));
    B' := B[q := B[q][k := 1]] - {p};
  }

  /**
   A free writes into a live block.  On a new heap of at least 1000 bytes, eleven calls by owners end with a free whose
   back-link names a header that has left the chain; another owner's block covers that place and is changed.
   */
  method LiveBlockWritten(mem: array<bv8>, base: nat, size: nat)
      returns (heap: DynamicMemoryAllocator, ghost start: Heap, ghost run: seq<Event>, ghost B: Blocks)
    requires 0 < base && 1000 <= size && base + size <= mem.Length < TWO63
    modifies mem
    ensures heap.Valid() && start.segs == [Seg(base, size, true, 0)] && Ran(start, run, 11, StateOf(heap), B)
    ensures base + 32 in B && |B[base + 32]| == 180 && !Holds(StateOf(heap), base + 32, B[base + 32])
  {
    heap, start, run, B := ReachStale(mem, base, size);
    run, B := Spoil(heap, base + 596, 4, base + 132, base + 32, 107, start, run, 9, B, base, base + size);
  }

  // ------------------------------------------------------------------------- a header is destroyed

  /** The chain of the first eight calls of that run, followed by an allocation of 90 instead of 180. */
  function SmallChain(base: nat, size: nat): seq<Seg>
    requires size >= 1000
  {
    [Seg(base, 122, false, 0), Seg(base + 122, 142, true, base), Seg(base + 264, 42, false, base),
     Seg(base + 306, 258, true, base + 264), Seg(base + 564, 132, false, base + 132),
     Seg(base + 696, size - 696, true, base + 564)]
  }

  function SmallPlan(base: nat, size: nat): (plan: seq<Stage>)
    requires size >= 1000
    ensures |plan| == 9
  {
    StalePlan(base, size)[..8] + [Stage(DoAlloc(90), base + 32, SmallChain(base, size),
                                        StaleSizes(base, 8)[base + 32 := 90])]
  }

  lemma SmallBefore(base: nat, size: nat, k: nat)
    requires size >= 1000 && k < 9
    ensures ChainAt(base, size, SmallPlan(base, size), k) == StaleChain(base, size, k)
    ensures SizesAt(SmallPlan(base, size), k) == StaleSizes(base, k)
    ensures k < 8 ==> SmallPlan(base, size)[k] == StaleStage(base, size, k)
  {
    StaleBefore(base, size, k);
  }

  lemma SmallSure(base: nat, size: nat, k: nat)
    requires base > 0 && size >= 1000 && k < 9
    ensures Sure(base, size, SmallPlan(base, size), k) && GentleStage(base, size, SmallPlan(base, size), k)
  {
    SmallBefore(base, size, k);
    StaleBefore(base, size, k);
    if k < 8 {
      StaleLeads(base, size, k);
      StaleGentle(base, size, k);
    } else {
      AllocIs(StaleChain(base, size, 8), 90, 0, SmallChain(base, size));
    }
  }

  /** The back-link of the third block leads into the header of the second segment. */
  lemma SmallThird(base: nat, size: nat)
    requires base > 0 && size >= 1000
    ensures var c := SmallChain(base, size);
            && IndexOf(c, base + 564, 0) == 4 && c[4].prev == base + 132 && !BackInChain(c, 4)
            && Joined(c, 4) == c[..4] + [Seg(base + 564, size - 564, true, base + 132)]
            && HitsFields(Joined(c, 4), 4, base + 132) && Cover(Joined(c, 4), base + 139, 0) == 1
  {
    var c := SmallChain(base, size);
    IndexIs(c, base + 564, 4);
    IndexIs(c, base + 132, 6);
    var joined := c[..4] + [Seg(base + 564, size - 564, true, base + 132)];
    assert Joined(c, 4) == joined;
    assert joined[1].addr == base + 122;
  }

  /** Bit 8 of an address. */
  predicate Bit8(a: nat) {
    FieldBit(a, 1)
  }

  lemma Bit8Is(a: nat, q: nat, r: nat)
    requires a == q * 256 + r && r < 256
    ensures Bit8(a) <==> q % 2 == 1
  {
    assert a / 256 == q;
  }

  lemma OddIs(x: nat)
    ensures (2 * x + 1) % 2 == 1
  {
  }

  lemma EighthIs(n: nat)
    ensures n * 4096 / 8 == n * 512
  {
    assert n * 4096 == (n * 512) * 8;
  }

  /** The kernel's heap starts behind a bitmap that starts at a page: with a multiple of 4096 frames that bit is set. */
  lemma KernelHeapBit(page: nat, frames: nat, n: nat, base: nat)
    requires frames == n * 4096 && base == page * 4096 + frames / 8 + 1
    ensures Bit8(base + 264)
  {
    EighthIs(n);
    OddIs(page * 8 + n);
    Bit8Is(base + 264, 2 * (page * 8 + n) + 1, 9);
  }

  /** The free bit that is read there is bit 8 of the next link of that header. */
  lemma SmallBit(m: Mem, base: nat, size: nat)
    requires base > 0 && size >= 1000 && base + size <= |m|
    ensures FreedBit(m, SmallChain(base, size), 4) <==> Bit8(base + 264)
  {
    SmallThird(base, size);
    var joined := Joined(SmallChain(base, size), 4);
    assert HeaderOf(joined, 1).next == base + 264;
  }

  /** The back-link of the block at `p`, segment `i` of the chain, leads into a header of the chain. */
  ghost predicate IntoHeader(h: Heap, p: nat, i: nat) {
    && i == SegOf(h, p) && LinkInMemory(h.segs, i, |h.mem|) && !BackInChain(h.segs, i)
    && HitsFields(Joined(h.segs, i), i, h.segs[i].prev)
  }

  lemma SmallInto(h: Heap, base: nat, size: nat)
    requires base > 0 && size >= 1000 && base + size <= |h.mem| && h.segs == SmallChain(base, size)
    ensures IntoHeader(h, base + 596, 4) && (FreedBit(h.mem, h.segs, 4) <==> Bit8(base + 264))
  {
    SmallThird(base, size);
    SmallBit(h.mem, base, size);
  }

  /** A free whose back-link leads into a header of the chain keeps everything or destroys that header. */
  lemma HitExactly(h: Heap, B: Blocks, p: nat, h': Heap, i: nat, base: nat, end: nat)
    requires Sound(h, B, base, end) && p in B && Step(h, DoFree(p), h', 0, false) && IntoHeader(h, p, i)
    ensures Shown(h'.mem, h'.segs) <==> !FreedBit(h.mem, h.segs, i)
    ensures Sound(h', B - {p}, base, end) <==> !FreedBit(h.mem, h.segs, i)
  {
    if FreedBit(h.mem, h.segs, i) {
      HeaderHit(h.mem, h.segs, i, h'.mem, h'.segs);
    } else {
      FreeStep(h, B, DoFree(p), h', 0, false, base, end);
    }
  }

  method ReachSmall(mem: array<bv8>, base: nat, size: nat)
      returns (heap: DynamicMemoryAllocator, ghost start: Heap, ghost run: seq<Event>, ghost B: Blocks)
    requires 0 < base && 1000 <= size && base + size <= mem.Length < TWO63
    modifies mem
    ensures fresh(heap) && heap.mem == mem && heap.Valid() && IntoHeader(StateOf(heap), base + 596, 4)
    ensures FreedBit(heap.mem[..], heap.segs, 4) <==> Bit8(base + 264)
    ensures start.segs == [Seg(base, size, true, 0)] && Ran(start, run, 9, StateOf(heap), B)
    ensures Sound(StateOf(heap), B, base, base + size) && base + 596 in B
  {
    var plan := SmallPlan(base, size);
    forall k | 0 <= k < |plan| ensures Sure(base, size, plan, k) { SmallSure(base, size, k); }
    heap, start, run := CarryOut(mem, base, size, plan);
    forall k | 0 <= k < |plan| ensures GentleStage(base, size, plan, k) { SmallSure(base, size, k); }
    PlanSound(base, size, plan, start, run, StateOf(heap));
    B := LastBlocks(start, map[], run, false);
    assert base + 596 in plan[8].sizes;
    SmallInto(StateOf(heap), base, size);
  }

  /** Such a free, on the object. */
  method FreeInto(heap: DynamicMemoryAllocator, p: nat, ghost i: nat, ghost B: Blocks, ghost base: nat, ghost end: nat)
    requires heap.Valid() && IntoHeader(StateOf(heap), p, i) && Sound(StateOf(heap), B, base, end) && p in B
    modifies heap.mem, heap`view, heap`segs
    ensures Step(old(StateOf(heap)), DoFree(p), StateOf(heap), 0, false)
    ensures Shown(heap.mem[..], heap.segs) <==> !FreedBit(old(heap.mem[..]), old(heap.segs), i)
    ensures Sound(StateOf(heap), B - {p}, base, end) <==> !FreedBit(old(heap.mem[..]), old(heap.segs), i)
  {
    ghost var h := StateOf(heap);
    CallFree(heap, p);
    HitExactly(h, B, p, StateOf(heap), i, base, end);
  }

  /**
   A free destroys a header.  On a new heap of at least 1000 bytes, nine calls by owners keep all blocks; the tenth, a
   free by an owner, writes into a header of the chain exactly if bit 8 of an address of the heap is set.
   */
  method HeaderDestroyed(mem: array<bv8>, base: nat, size: nat)
      returns (heap: DynamicMemoryAllocator, ghost start: Heap, ghost run: seq<Event>, ghost h: Heap, ghost B: Blocks)
    requires 0 < base && 1000 <= size && base + size <= mem.Length < TWO63
    modifies mem
    ensures start.segs == [Seg(base, size, true, 0)] && Ran(start, run, 9, h, B)
    ensures Sound(h, B, base, base + size) && base + 596 in B
    ensures Step(h, DoFree(base + 596), StateOf(heap), 0, false)
    ensures Shown(heap.mem[..], heap.segs) <==> !Bit8(base + 264)
    ensures Sound(StateOf(heap), B - {base + 596}, base, base + size) <==> !Bit8(base + 264)
  {
    heap, start, run, B := ReachSmall(mem, base, size);
    h := StateOf(heap);
    FreeInto(heap, base + 596, 4, B, base, base + size);
  }
}
