/**
 Aligned blocks: a larger block is allocated, and its address is kept right in front of the aligned part.
 */
module AlignedBlocks {
  import opened HeapMemory
  import opened HeapChain
  import opened HeapCalls
  import opened HeapBytes
  import opened KernelHeap
  import HeapRuns

  const POINTER_SIZE := 8

  predicate IsPowerOfTwo(a: nat) {
    a == 1 || (a > 1 && a % 2 == 0 && IsPowerOfTwo(a / 2))
  }

  /** Masking with the complement of `a - 1`: bit by bit, the low bits are cleared and the others kept. */
  function ClearLow(x: nat, a: nat): nat
    requires IsPowerOfTwo(a)
  {
    if a == 1 then x else 2 * ClearLow(x / 2, a / 2)
  }

  /** The mask gives the last multiple of the alignment. */
  lemma {:induction false} ClearLowRoundsDown(x: nat, a: nat) returns (k: nat)
    requires IsPowerOfTwo(a)
    ensures ClearLow(x, a) == k * a && ClearLow(x, a) <= x < ClearLow(x, a) + a
    decreases a
  {
    if a == 1 {
      k := x;
    } else {
      k := ClearLowRoundsDown(x / 2, a / 2);
      assert a == 2 * (a / 2);
      assert k * a == 2 * (k * (a / 2));
    }
  }

  /** The address in a block of `size + alignment` bytes and a pointer that is handed out. */
  function AlignedIn(original: nat, alignment: nat): nat
    requires IsPowerOfTwo(alignment)
  {
    ClearLow(original + alignment + POINTER_SIZE, alignment)
  }

  /** The aligned part is a multiple of the alignment, with room in front for an address and behind it for the block. */
  lemma RoomForAligned(original: nat, size: nat, alignment: nat) returns (k: nat)
    requires IsPowerOfTwo(alignment)
    ensures var aligned := AlignedIn(original, alignment);
            && aligned == k * alignment
            && original + POINTER_SIZE < aligned && aligned + size <= original + size + alignment + POINTER_SIZE
  {
    k := ClearLowRoundsDown(original + alignment + POINTER_SIZE, alignment);
  }

  /** Stores an address into the payload of segment `i`. */
  method StorePointer(heap: DynamicMemoryAllocator, x: nat, value: nat, ghost i: nat)
    requires heap.Valid() && i < |heap.segs| && value < TWO64
    requires InPayload(heap.segs[i], x) && InPayload(heap.segs[i], x + 7)
    modifies heap.mem, heap`view
    ensures heap.Valid() && x + 8 <= heap.mem.Length && Get64(heap.mem[..], x) == value
    ensures SameOutside(old(heap.mem[..]), heap.mem[..], x, x + 8)
  {
    ghost var m := heap.mem[..];
    forall y | x <= y < x + 8 ensures !InHeader(heap.segs, y) && y < heap.mem.Length {
      PayloadOffHeaders(heap.segs, i, y, heap.mem.Length);
    }
    PayloadOffHeaders(heap.segs, i, x + 7, heap.mem.Length);
    PutGet(m, x, value);
    heap.Store64(x, value);
    PruneShows(m, heap.mem[..], heap.view, heap.segs, heap.mem.Length);
    heap.view := Known(heap.view, heap.segs);
  }

  /** Allocates a block, and names its segment. */
  method AllocateFresh(heap: DynamicMemoryAllocator, n: nat) returns (ptr: nat, ghost i: nat)
    requires heap.Valid() && n + HEADER + HEADER < TWO64
    modifies heap.mem, heap`view, heap`segs
    ensures heap.Valid() && (old(heap.Tiles()) ==> heap.Tiles())
    ensures (heap.segs, ptr) == AllocChain(old(heap.segs), n, false)
    ensures OnlyHeaders(old(heap.mem[..]), heap.mem[..], heap.segs) && (ptr == 0 ==> heap.mem[..] == old(heap.mem[..]))
    ensures ptr != 0 ==> i < |heap.segs| && heap.segs[i].addr + HEADER == ptr && heap.segs[i].size == n + HEADER
  {
    i := FirstFit(heap.segs, 0, n + HEADER + HEADER);
    ptr := heap.Allocate(n);
  }

  /**
   The aligned part of the block at `original`, with its address kept in front; outside headers of the chain only the
   eight bytes of that address are written.
   */
  ghost predicate AlignedPart(m: Mem, r: Mem, segs: seq<Seg>, original: nat, size: nat, alignment: nat, aligned: nat) {
    && IsPowerOfTwo(alignment) && aligned == AlignedIn(original, alignment)
    && original + POINTER_SIZE < aligned && aligned + size <= original + size + alignment + POINTER_SIZE
    && aligned <= |m| == |r| && Get64(r, aligned - POINTER_SIZE) == original
    && forall x :: 0 <= x < |m| && !InHeader(segs, x) && !(aligned - POINTER_SIZE <= x < aligned) ==> r[x] == m[x]
  }

  /** Finds the aligned part of a block and stores the address of the block in front of it. */
  method Align(heap: DynamicMemoryAllocator, original: nat, size: nat, alignment: nat, ghost m: Mem, ghost i: nat)
      returns (aligned: nat)
    requires heap.Valid() && IsPowerOfTwo(alignment) && i < |heap.segs| && OnlyHeaders(m, heap.mem[..], heap.segs)
    requires heap.segs[i].addr + HEADER == original && heap.segs[i].size == size + alignment + POINTER_SIZE + HEADER
    modifies heap.mem, heap`view
    ensures heap.Valid() && AlignedPart(m, heap.mem[..], heap.segs, original, size, alignment, aligned)
  {
    var _ := RoomForAligned(original, size, alignment);
    aligned := AlignedIn(original, alignment);
    StorePointer(heap, aligned - POINTER_SIZE, original, i);
  }

  /** A block of `size` bytes at a multiple of `alignment`; 0 if the larger block is not to be had. */
  method AllocateAligned(heap: DynamicMemoryAllocator, size: nat, alignment: nat)
      returns (aligned: nat, ghost original: nat)
    requires heap.Valid() && IsPowerOfTwo(alignment)
    requires size + alignment + POINTER_SIZE + HEADER + HEADER < TWO64
    modifies heap.mem, heap`view, heap`segs
    ensures heap.Valid() && (old(heap.Tiles()) ==> heap.Tiles())
    ensures (heap.segs, original) == AllocChain(old(heap.segs), size + alignment + POINTER_SIZE, false)
    ensures if original == 0 then aligned == 0 && heap.mem[..] == old(heap.mem[..])
            else AlignedPart(old(heap.mem[..]), heap.mem[..], heap.segs, original, size, alignment, aligned)
  {
    ghost var m := heap.mem[..];
    var ptr;
    ghost var i;
    ptr, i := AllocateFresh(heap, size + alignment + POINTER_SIZE);
    original := ptr;
    if ptr == 0 {
      return 0, 0;
    }
    aligned := Align(heap, ptr, size, alignment, m, i);
  }

  /** The address kept in front of an aligned block, and whether a signed header is in front of what it names. */
  function Original(m: Mem, ptr: nat): nat
    requires POINTER_SIZE <= ptr <= |m|
  {
    Get64(m, ptr - POINTER_SIZE)
  }

  predicate Signed(m: Mem, ptr: nat) {
    HEADER <= ptr <= |m| && m[ptr - HEADER..ptr - HEADER + 7] == SIGNATURE
  }

  /** Frees the block whose address is kept in front of an aligned one; null is ignored. */
  method FreeAligned(heap: DynamicMemoryAllocator, ptr: nat, ghost i: nat)
    requires heap.Valid()
    requires ptr != 0 ==>
               POINTER_SIZE <= ptr <= heap.mem.Length && HEADER <= Original(heap.mem[..], ptr) <= heap.mem.Length
    requires ptr != 0 && Signed(heap.mem[..], Original(heap.mem[..], ptr)) ==>
               LinkInMemory(heap.segs, i, heap.mem.Length) && heap.segs[i].addr + HEADER == Original(heap.mem[..], ptr)
    modifies heap.mem, heap`view, heap`segs
    ensures ptr == 0 || !Signed(old(heap.mem[..]), old(Original(heap.mem[..], ptr))) ==>
              heap.Valid() && heap.segs == old(heap.segs) && heap.mem[..] == old(heap.mem[..])
    ensures ptr != 0 && Signed(old(heap.mem[..]), old(Original(heap.mem[..], ptr))) ==>
              && FreedOver(old(heap.mem[..]), old(heap.segs), i, heap.mem[..], heap.segs)
              && (LinkOk(old(heap.mem[..]), old(heap.segs), i) ==> heap.Valid())
  {
    if ptr == 0 {
      return;
    }
    var original := Original(heap.mem[..], ptr);
    heap.Free(original, i);
  }

  /** Frees by an aligned pointer that leads to segment `i`, whose back-link leads into the chain. */
  method FreeBack(heap: DynamicMemoryAllocator, ptr: nat, ghost i: nat)
    requires heap.Valid() && POINTER_SIZE <= ptr <= heap.mem.Length && BackInChain(heap.segs, i)
    requires Original(heap.mem[..], ptr) == heap.segs[i].addr + HEADER
    modifies heap.mem, heap`view, heap`segs
    ensures heap.Valid() && heap.segs == FreeChain(old(heap.segs), i)
  {
    ghost var m, segs := heap.mem[..], heap.segs;
    LinkOfSpaced(m, segs, i);
    SignedSegment(m, heap.view, segs, i);
    FreeAligned(heap, ptr, i);
    FreedInChain(m, segs, i, heap.mem[..], heap.segs);
  }

  /** The chain after an allocation leads back to the chain before. */
  lemma LeadsBack(segs: seq<Seg>, n: nat, t: seq<Seg>, p: nat, base: nat, end: nat) returns (i: nat)
    requires Exact(segs, base, end) && NoAdjacentFree(segs) && (t, p) == AllocChain(segs, n, false) && p != 0
    ensures BackInChain(t, i) && t[i].addr + HEADER == p && FreeChain(t, i) == segs
  {
    i := FirstFit(segs, 0, n + HEADER + HEADER);
    HeapRuns.FreeUndoesAllocate(segs, n, false, base, end);
  }

  /** What was allocated aligned and is freed by the aligned pointer leaves an exact chain as it was. */
  method AlignedRoundTrip(heap: DynamicMemoryAllocator, size: nat, alignment: nat, ghost base: nat, ghost end: nat)
    requires heap.Valid() && Exact(heap.segs, base, end) && NoAdjacentFree(heap.segs) && IsPowerOfTwo(alignment)
    requires size + alignment + POINTER_SIZE + HEADER + HEADER < TWO64
    modifies heap.mem, heap`view, heap`segs
    ensures heap.Valid() && heap.segs == old(heap.segs)
  {
    ghost var before := heap.segs;
    var aligned;
    ghost var original;
    aligned, original := AllocateAligned(heap, size, alignment);
    if aligned != 0 {
      ghost var i := LeadsBack(before, size + alignment + POINTER_SIZE, heap.segs, original, base, end);
      FreeBack(heap, aligned, i);
    }
  }
}
