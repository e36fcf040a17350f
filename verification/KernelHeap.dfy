/**
 The kernel heap: first fit over the chain of segments, as an object that stores headers into memory.

 The methods do the stores and are proved to leave a memory whose chain is the one that the functions on chains give,
 with only headers rewritten, whether or not the chain still tiles the heap.  A free over a back-link that leads out of
 the chain writes where the link leads; the contracts say what it writes, and when the chain survives that.
 */
module KernelHeap {
  import opened HeapMemory
  import opened HeapChain
  import opened HeapCalls
  import opened HeapBytes
  import ByteMemory

  /** The segments tile the heap, which ends in memory. */
  ghost predicate TilesHeap(segs: seq<Seg>, base: nat, size: nat, limit: nat) {
    Tiled(segs, base, base + size) && base + size <= limit
  }

  lemma AllocTiles(segs: seq<Seg>, n: nat, t: seq<Seg>, base: nat, size: nat, limit: nat)
    requires t == AllocChain(segs, n, false).0
    ensures TilesHeap(segs, base, size, limit) ==> TilesHeap(t, base, size, limit)
  {
    if Tiled(segs, base, base + size) { AllocTiled(segs, n, false, base, base + size); }
  }

  lemma FreeTiles(m: Mem, segs: seq<Seg>, i: nat, r: Mem, t: seq<Seg>, base: nat, size: nat)
    requires LinkInMemory(segs, i, |m|) && FreedOver(m, segs, i, r, t)
    ensures TilesHeap(segs, base, size, |m|) ==>
              (TilesHeap(t, base, size, |m|) <==> !BackInChain(segs, i) || Harmless(segs, i))
  {
    FreedChainIs(m, segs, i, r, t);
    if Tiled(segs, base, base + size) { FreeTiledExactly(segs, i, FreedBit(m, segs, i), base, base + size); }
  }

  lemma ResizeTiles(
    m: Mem, segs: seq<Seg>, i: nat, n: nat, q: nat, m0: Mem, m1: Mem, r: Mem, u: seq<Seg>, base: nat, size: nat,
    limit: nat)
    requires i < |segs| && !segs[i].free && Resized(m, segs, i, n, q, m0, m1, r, u)
    ensures TilesHeap(segs, base, size, limit) ==>
              (TilesHeap(u, base, size, limit) <==> MoveHarmless(segs, i, n, false))
  {
    var bit := ResizedChainIs(m, segs, i, n, q, m0, m1, r, u);
    if Tiled(segs, base, base + size) { ReallocTiledExactly(segs, i, n, false, bit, base, base + size); }
  }

  // ------------------------------------------------------------------------- the allocator object

  class DynamicMemoryAllocator {
    const mem: array<bv8>
    var heapSize: nat
    var firstSegment: nat
    ghost var view: Headers        // headers known to be in memory
    ghost var segs: seq<Seg>       // the chain they form

    ghost predicate Seen()
      reads this, mem
    {
      mem.Length < TWO63 && Shows(mem[..], view)
    }

    ghost predicate Valid()
      reads this, mem
    {
      Seen() && Linked(view, segs, mem.Length) && segs[0].addr == firstSegment
    }

    // ---- header fields

    method Read(a: nat) returns (h: Header)
      requires Seen() && a in view
      ensures h == view[a] && a + HEADER <= mem.Length
    {
      assert HeaderIn(mem[..], view, a);
      h := HeaderAt(mem[..], a);
    }

    /** The header of a segment of the chain. */
    method ReadSegment(a: nat, ghost i: nat) returns (h: Header)
      requires Valid() && i < |segs| && a == segs[i].addr
      ensures h == HeaderOf(segs, i)
    {
      h := Read(a);
    }

    method StoreSignature(a: nat)
      requires a + HEADER <= mem.Length
      modifies mem
      ensures Rewritten(old(mem[..]), mem[..], a, HeaderAt(old(mem[..]), a).(signed := true))
    {
      ghost var m := mem[..];
      for i := 0 to 7
        invariant forall x :: 0 <= x < mem.Length ==> mem[x] == if a <= x < a + i then SIGNATURE[x - a] else m[x]
      {
        mem[a + i] := SIGNATURE[i];
      }
      SignatureWritten(m, a);
      assert mem[..] == SetSignature(m, a);
    }

    method StoreFlag(a: nat, free: bool)
      requires a + HEADER <= mem.Length
      modifies mem
      ensures Rewritten(old(mem[..]), mem[..], a, HeaderAt(old(mem[..]), a).(free := free))
    {
      ghost var m := mem[..];
      mem[a + 7] := (mem[a + 7] & 0xfe) | (if free then 1 else 0);
      FreeWritten(m, a, free);
      assert mem[..] == SetFree(m, a, free);
    }

    method Store64(a: nat, n: nat)
      requires a + 8 <= mem.Length && n < TWO64
      modifies mem
      ensures mem[..] == Put64(old(mem[..]), a, n)
    {
      ghost var m, d := mem[..], Digits(n, 8);
      ByteMemory.StoreWord(mem, a, Digits(n, 8));
      assert mem[..] == m[..a] + d + m[a + 8..];
    }

    method StoreFree(a: nat, free: bool)
      requires Seen() && a in view
      modifies mem, this`view
      ensures Seen() && view == Write(old(view), a, old(view)[a].(free := free))
      ensures SameOutside(old(mem[..]), mem[..], a, a + HEADER)
    {
      assert HeaderIn(mem[..], view, a);
      StoreFlag(a, free);
      WriteShows(old(mem[..]), view, mem[..], a, view[a].(free := free));
      view := Write(view, a, view[a].(free := free));
    }

    method StoreSize(a: nat, n: nat)
      requires Seen() && a in view && n < TWO64
      modifies mem, this`view
      ensures Seen() && view == Write(old(view), a, old(view)[a].(size := n))
      ensures SameOutside(old(mem[..]), mem[..], a, a + HEADER)
    {
      assert HeaderIn(mem[..], view, a);
      SizeWritten(mem[..], a, n);
      Store64(a + 8, n);
      WriteShows(old(mem[..]), view, mem[..], a, view[a].(size := n));
      view := Write(view, a, view[a].(size := n));
    }

    method StoreNext(a: nat, b: nat)
      requires Seen() && a in view && b < TWO64
      modifies mem, this`view
      ensures Seen() && view == Write(old(view), a, old(view)[a].(next := b))
      ensures SameOutside(old(mem[..]), mem[..], a, a + HEADER)
    {
      assert HeaderIn(mem[..], view, a);
      NextWritten(mem[..], a, b);
      Store64(a + 16, b);
      WriteShows(old(mem[..]), view, mem[..], a, view[a].(next := b));
      view := Write(view, a, view[a].(next := b));
    }

    method StorePrev(a: nat, b: nat)
      requires Seen() && a in view && b < TWO64
      modifies mem, this`view
      ensures Seen() && view == Write(old(view), a, old(view)[a].(prev := b))
      ensures SameOutside(old(mem[..]), mem[..], a, a + HEADER)
    {
      assert HeaderIn(mem[..], view, a);
      PrevWritten(mem[..], a, b);
      Store64(a + 24, b);
      WriteShows(old(mem[..]), view, mem[..], a, view[a].(prev := b));
      view := Write(view, a, view[a].(prev := b));
    }

    /** The signature and the flag of a new header. */
    method StoreTag(a: nat, free: bool)
      requires a + HEADER <= mem.Length
      modifies mem
      ensures Rewritten(old(mem[..]), mem[..], a, HeaderAt(old(mem[..]), a).(signed := true, free := free))
    {
      StoreSignature(a);
      StoreFlag(a, free);
    }

    /** The size and the links of a new header. */
    method StoreFields(a: nat, size: nat, next: nat, prev: nat)
      requires a + HEADER <= mem.Length && size < TWO64 && next < TWO64 && prev < TWO64
      modifies mem
      ensures Rewritten(old(mem[..]), mem[..], a, HeaderAt(old(mem[..]), a).(size := size, next := next, prev := prev))
    {
      ghost var m := mem[..];
      SizeWritten(m, a, size);
      Store64(a + 8, size);
      ghost var m1 := mem[..];
      NextWritten(m1, a, next);
      Store64(a + 16, next);
      ghost var m2 := mem[..];
      RewrittenAgain(m, m1, m2, a);
      PrevWritten(m2, a, prev);
      Store64(a + 24, prev);
      RewrittenAgain(m, m2, mem[..], a);
    }

    /** The five stores that make a header, whatever was in memory before. */
    method StoreHeader(a: nat, free: bool, size: nat, next: nat, prev: nat)
      requires Seen() && a + HEADER <= mem.Length && size < TWO64 && next < TWO64 && prev < TWO64
      modifies mem, this`view
      ensures Seen() && view == Write(old(view), a, Header(true, free, size, next, prev))
      ensures SameOutside(old(mem[..]), mem[..], a, a + HEADER)
    {
      ghost var h := Header(true, free, size, next, prev);
      StoreTag(a, free);
      ghost var mid := mem[..];
      StoreFields(a, size, next, prev);
      RewrittenAgain(old(mem[..]), mid, mem[..], a);
      WriteShows(old(mem[..]), view, mem[..], a, h);
      view := Write(view, a, h);
    }

    // ---- the operations

    /** One free segment over the whole range. */
    constructor (mem: array<bv8>, base: nat, size: nat)
      requires 0 < base && HEADER <= size && base + size <= mem.Length < TWO63
      modifies mem
      ensures this.mem == mem && Valid() && heapSize == size && segs == [Seg(base, size, true, 0)]
      ensures SameOutside(old(mem[..]), mem[..], base, base + HEADER)
    {
      this.mem, heapSize, firstSegment := mem, size, base;
      view, segs := map[], [Seg(base, size, true, 0)];
      new;
      StoreHeader(base, true, size, 0, 0);
    }

    method FindFreeSegment(minSize: nat) returns (seg: nat)
      requires Valid()
      ensures var i := FirstFit(segs, 0, minSize); seg == if i < |segs| then segs[i].addr else 0
    {
      ghost var i := 0;
      seg := firstSegment;
      while seg != 0
        invariant i <= |segs| && seg == (if i < |segs| then segs[i].addr else 0)
        invariant FirstFit(segs, 0, minSize) == FirstFit(segs, i, minSize)
        decreases |segs| - i
      {
        var h := Read(seg);
        if h.free && h.size >= minSize {
          return;
        }
        seg := h.next;
        i := i + 1;
      }
    }

    /** The stores of a split: a new header behind the first `size` bytes, then size and next link of the old one. */
    method SplitStores(segment: nat, size: nat, h: Header) returns (ghost mid: Headers)
      requires Seen() && segment in view && h == view[segment]
      requires HEADER <= size <= h.size < TWO63 && h.next < TWO63 && segment + size + HEADER <= mem.Length
      modifies mem, this`view
      ensures Seen() && OnlyTwo(old(mem[..]), mem[..], segment, segment + size)
      ensures Updated(old(view), mid, segment + size, Header(true, h.free, h.size - size, h.next, segment))
      ensures Updated(mid, view, segment, h.(size := size, next := segment + size))
    {
      var newSegment := segment + size;
      StoreHeader(newSegment, h.free, h.size - size, h.next, segment);
      mid := view;
      StoreSize(segment, size);
      StoreNext(segment, newSegment);
    }

    method SplitSegment(segment: nat, size: nat, ghost i: nat) returns (ok: bool)
      requires Valid() && i < |segs| && segs[i].addr == segment && HEADER <= size < TWO63
      modifies mem, this`view, this`segs
      ensures Valid() && ok == CanSplit(old(segs)[i].size, size)
      ensures segs == if ok then Split(old(segs), i, size) else old(segs)
      ensures OnlyHeaders(old(mem[..]), mem[..], segs) && (!ok ==> mem[..] == old(mem[..]))
    {
      var h := Read(segment);
      if h.size - (size + HEADER) < MIN_CAPACITY * 2 {
        return false;
      }
      NextBelow(view, segs, i, mem.Length);
      ghost var after := Split(segs, i, size);
      ghost var mid := SplitStores(segment, size, h);
      SplitLinked(old(view), mid, view, segs, i, size, mem.Length);
      assert after[0].addr == firstSegment;
      assert after[i].addr == segment && after[i + 1].addr == segment + size;
      TwoHeaders(old(mem[..]), mem[..], after, i, i + 1);
      segs := after;
      return true;
    }

    /** Size and next link of the header at `a`, whatever is there. */
    method StoreWords(a: nat, size: nat, next: nat)
      requires a + HEADER <= mem.Length && size < TWO64 && next < TWO64
      modifies mem
      ensures SameOutside(old(mem[..]), mem[..], a + 8, a + 24)
      ensures Get64(mem[..], a + 8) == size && Get64(mem[..], a + 16) == next
    {
      ghost var m := mem[..];
      PutGet(m, a + 8, size);
      Store64(a + 8, size);
      ghost var m0 := mem[..];
      PutGet(m0, a + 16, next);
      Store64(a + 16, next);
      SameSlice(m0, mem[..], a + 16, a + 24, a + 8, 8);
    }

    /** The stores that both merges do at the header `a`: size and next link, then the back-link of the next header. */
    method MergeStores(a: nat, size: nat, next: nat) returns (ghost m1: Mem)
      requires a + HEADER <= mem.Length < TWO63 && next + HEADER <= mem.Length && size < TWO64
      modifies mem
      ensures WordsStored(old(mem[..]), m1, mem[..], a, size, next)
    {
      StoreWords(a, size, next);
      m1 := mem[..];
      if next != 0 {
        PutGet(m1, next + 24, a);
        Store64(next + 24, a);
      }
    }

    method MergeSegmentWithNext(segment: nat, ghost i: nat) returns (ok: bool)
      requires Valid() && i < |segs| && segment == segs[i].addr
      modifies mem, this`view, this`segs
      ensures Valid() && ok == (i + 1 < old(|segs|)) && (!ok ==> mem[..] == old(mem[..]))
      ensures segs == if ok then Absorb(old(segs), i, i + 1) else old(segs)
      ensures OnlyHeaders(old(mem[..]), mem[..], old(segs)) && OnlyHeaders(old(mem[..]), mem[..], segs)
    {
      var h := Read(segment);
      if h.next == 0 {
        return false;
      }
      NextBelow(view, segs, i + 1, mem.Length);
      var n := Read(h.next);
      ghost var m1 := MergeStores(segment, Sum64(h.size, n.size), n.next);
      MergeBytes(old(mem[..]), m1, mem[..], segs, i, i + 1, Sum64(h.size, n.size));
      view := ChainMerged(old(mem[..]), m1, mem[..], view, segs, i, i + 1, segment, Sum64(h.size, n.size), n.next);
      segs := Absorb(segs, i, i + 1);
      return true;
    }

    /** The header at `a`, which the back-link names, takes segment `i` over. */
    method TakeOver(a: nat, size: nat, next: nat, ghost i: nat)
      requires Valid() && LinkInMemory(segs, i, mem.Length) && a == segs[i].prev != 0 && next == NextAddr(segs, i)
      requires size == Sum64(Get64(mem[..], a + 8), segs[i].size)
      modifies mem, this`view, this`segs
      ensures segs == PrevMergedChain(old(segs), i) && MergeStored(old(mem[..]), mem[..], a, size, next)
      ensures BackInChain(old(segs), i) || OffHeaders(old(segs), a + 8, 16) ==> Valid()
    {
      NextBelow(view, segs, i, mem.Length);
      ghost var m := mem[..];
      SumInChain(m, view, segs, i, a, size);
      ghost var m1 := MergeStores(a, size, next);
      view := PrevTakenOver(m, m1, mem[..], view, segs, i, a, size, next);
      segs := PrevMergedChain(segs, i);
    }

    /** The header that the back-link names, in the chain or not, takes the segment over. */
    method MergeSegmentWithPrevious(segment: nat, ghost i: nat) returns (ok: bool)
      requires Valid() && LinkInMemory(segs, i, mem.Length) && segment == segs[i].addr
      modifies mem, this`view, this`segs
      ensures ok == (old(segs)[i].prev != 0) && (!ok ==> Valid() && segs == old(segs) && mem[..] == old(mem[..]))
      ensures ok ==> PrevMerged(old(mem[..]), old(segs), i, mem[..], segs)
      ensures BackInChain(old(segs), i) || OffHeaders(old(segs), old(segs)[i].prev + 8, 16) ==> Valid()
    {
      var h := Read(segment);
      if h.prev == 0 {
        return false;
      }
      TakeOver(h.prev, Sum64(Get64(mem[..], h.prev + 8), h.size), h.next, i);
      return true;
    }

    /** The chain tiles the heap. */
    ghost predicate Tiles()
      reads this
    {
      TilesHeap(segs, firstSegment, heapSize, mem.Length)
    }

    method Mark(segment: nat, free: bool, ghost i: nat)
      requires Valid() && i < |segs| && segs[i].addr == segment
      modifies mem, this`view, this`segs
      ensures Valid() && segs == old(segs)[i := old(segs)[i].(free := free)]
      ensures OnlyHeaders(old(mem[..]), mem[..], segs) && SameOutside(old(mem[..]), mem[..], segment, segment + HEADER)
    {
      StoreFree(segment, free);
      SegLinked(old(view), view, segs, i, segs[i].(free := free), mem.Length);
      segs := segs[i := segs[i].(free := free)];
      TwoHeaders(old(mem[..]), mem[..], segs, i, i);
    }

    /** Splits a free segment and marks its first part used. */
    method Take(segment: nat, size: nat, ghost i: nat) returns (ok: bool)
      requires Valid() && i < |segs| && segs[i].addr == segment && HEADER <= size < TWO63
      modifies mem, this`view, this`segs
      ensures Valid() && ok == CanSplit(old(segs)[i].size, size) && OnlyHeaders(old(mem[..]), mem[..], segs)
      ensures !ok ==> mem[..] == old(mem[..]) && segs == old(segs)
      ensures ok ==> segs == Taken(old(segs), i, size)
    {
      ok := SplitSegment(segment, size, i);
      if ok {
        ghost var mid, split := mem[..], segs;
        assert segs[i].addr == segment;
        Mark(segment, false, i);
        SameHeaders(old(mem[..]), mid, split, segs);
        Compose(old(mem[..]), mid, mem[..], segs);
      }
    }

    /** The part of an allocation that runs under the heap's lock. */
    method AllocateLocked(size: nat, ghost i: nat) returns (ptr: nat)
      requires Valid() && i == FirstFit(segs, 0, size + HEADER + HEADER)
      modifies mem, this`view, this`segs
      ensures Valid() && OnlyHeaders(old(mem[..]), mem[..], segs)
      ensures ptr != 0 <==> i < old(|segs|) && CanSplit(old(segs)[i].size, size + HEADER)
      ensures ptr == 0 ==> mem[..] == old(mem[..]) && segs == old(segs)
      ensures ptr != 0 ==> ptr == old(segs)[i].addr + HEADER && segs == Taken(old(segs), i, size + HEADER)
    {
      var newSegmentSize := size + HEADER;
      var segment := FindFreeSegment(newSegmentSize + HEADER);
      if segment == 0 {
        return 0;
      }
      var ok := Take(segment, newSegmentSize, i);
      if !ok {
        return 0;
      }
      return segment + HEADER;
    }

    method Allocate(size: nat) returns (ptr: nat)
      requires Valid() && size + HEADER + HEADER < TWO64
      modifies mem, this`view, this`segs
      ensures Valid() && (old(Tiles()) ==> Tiles()) && (segs, ptr) == AllocChain(old(segs), size, false)
      ensures OnlyHeaders(old(mem[..]), mem[..], segs) && (ptr == 0 ==> mem[..] == old(mem[..]))
    {
      ghost var i := FirstFit(segs, 0, size + HEADER + HEADER);
      AllocCases(segs, size, i);
      ghost var before := segs;
      ptr := AllocateLocked(size, i);
      AllocTiles(before, size, segs, firstSegment, heapSize, mem.Length);
    }

    /** The freed segment takes over a free successor. */
    method JoinNext(segment: nat, ghost i: nat)
      requires Valid() && i < |segs| && segs[i].addr == segment
      modifies mem, this`view, this`segs
      ensures Valid() && segs == MergedNext(old(segs), i)
      ensures OnlyHeaders(old(mem[..]), mem[..], old(segs)) && OnlyHeaders(old(mem[..]), mem[..], segs)
    {
      var h := Read(segment);
      if h.next != 0 {
        var n := Read(h.next);
        if n.free {
          var _ := MergeSegmentWithNext(segment, i);
        }
      }
    }

    /** What the back-link names, if its free bit is set, takes over the freed segment. */
    method JoinPrevious(segment: nat, ghost i: nat)
      requires Valid() && LinkInMemory(segs, i, mem.Length) && segs[i].addr == segment
      modifies mem, this`view, this`segs
      ensures SecondMerged(old(mem[..]), old(segs), i, mem[..], segs)
      ensures LinkHolds(old(mem[..]), old(segs), i) ==> Valid()
    {
      var h := Read(segment);
      if h.prev != 0 {
        if FreeBit(mem[..], h.prev) {
          var _ := MergeSegmentWithPrevious(segment, i);
        }
      }
    }

    /** Marks a segment free and lets it take over a free successor. */
    method Release(segment: nat, ghost i: nat)
      requires Valid() && i < |segs| && segs[i].addr == segment
      modifies mem, this`view, this`segs
      ensures Valid() && segs == Joined(old(segs), i) && OnlyHeaders(old(mem[..]), mem[..], segs)
    {
      Mark(segment, true, i);
      ghost var mid, freed := mem[..], segs;
      JoinNext(segment, i);
      MarkedInJoined(old(mem[..]), mid, old(segs), i);
      Compose(old(mem[..]), mid, mem[..], segs);
    }

    /** Both merges of a free. */
    method FreeSegment(segment: nat, ghost i: nat)
      requires Valid() && LinkInMemory(segs, i, mem.Length) && segs[i].addr == segment
      modifies mem, this`view, this`segs
      ensures FreedOver(old(mem[..]), old(segs), i, mem[..], segs)
      ensures LinkOk(old(mem[..]), old(segs), i) ==> Valid()
    {
      ghost var before, m := segs, mem[..];
      Release(segment, i);
      ghost var mid := mem[..];
      assert Shows(mid, view) && Linked(view, segs, |mid|);
      assert Released(m, before, i, mid);
      LinkStillOk(m, before, i, mid);
      JoinPrevious(segment, i);
    }

    /** Frees a block; a pointer without a signed header in front of it is only reported. */
    method Free(ptr: nat, ghost i: nat)
      requires Valid() && HEADER <= ptr <= mem.Length
      requires mem[ptr - HEADER..ptr - HEADER + 7] == SIGNATURE ==>
                 LinkInMemory(segs, i, mem.Length) && segs[i].addr == ptr - HEADER
      modifies mem, this`view, this`segs
      ensures old(mem[ptr - HEADER..ptr - HEADER + 7]) != SIGNATURE ==>
                Valid() && segs == old(segs) && mem[..] == old(mem[..])
      ensures old(mem[ptr - HEADER..ptr - HEADER + 7]) == SIGNATURE ==>
                && FreedOver(old(mem[..]), old(segs), i, mem[..], segs)
                && (LinkOk(old(mem[..]), old(segs), i) ==> Valid())
                && (old(Tiles()) ==> (Tiles() <==> !BackInChain(old(segs), i) || Harmless(old(segs), i)))
    {
      var segment := ptr - HEADER;
      if mem[segment..segment + 7] != SIGNATURE {
        return;
      }
      ghost var before, m := segs, mem[..];
      FreeSegment(segment, i);
      FreeTiles(m, before, i, mem[..], segs, firstSegment, heapSize);
    }

    // ---- payloads

    /** A byte of a segment's payload is stored; the headers of the chain stay in view. */
    method StorePayload(x: nat, b: bv8, ghost i: nat)
      requires Valid() && i < |segs| && InPayload(segs[i], x)
      modifies mem, this`view
      ensures Valid() && x < mem.Length && mem[..] == old(mem[..])[x := b]
    {
      PayloadOffHeaders(segs, i, x, mem.Length);
      mem[x] := b;
      PruneShows(old(mem[..]), mem[..], view, segs, mem.Length);
      view := Known(view, segs);
    }

    /** Copies the payload of one segment to the start of another. */
    method CopyPayload(dest: nat, src: nat, size: nat, ghost d: nat, ghost s: nat)
      requires Valid() && d < |segs| && s < |segs| && d != s
      requires dest == segs[d].addr + HEADER && src == segs[s].addr + HEADER
      requires size <= segs[d].size - HEADER && size <= segs[s].size - HEADER
      modifies mem, this`view
      ensures Valid() && Copied(old(mem[..]), mem[..], dest, src, size)
    {
      PayloadsApart(segs, d, s, size, mem.Length);
      ByteMemory.Memcpy(mem, dest, src, size);
      PruneShows(old(mem[..]), mem[..], view, segs, mem.Length);
      view := Known(view, segs);
    }

    /** Copies a used block to a larger one and frees it. */
    method CopyAndFree(ptr: nat, to: nat, ghost k: nat, ghost d: nat) returns (ghost mid: Mem)
      requires Valid() && LinkInMemory(segs, k, mem.Length) && d < |segs| && d != k
      requires segs[k].addr == ptr - HEADER && segs[d].addr == to - HEADER && segs[k].size <= segs[d].size
      modifies mem, this`view, this`segs
      ensures Copied(old(mem[..]), mid, to, ptr, old(segs)[k].size - HEADER) && Shown(mid, old(segs))
      ensures FreedOver(mid, old(segs), k, mem[..], segs) && (LinkOk(mid, old(segs), k) ==> Valid())
    {
      var h := Read(ptr - HEADER);
      CopyPayload(to, ptr, h.size - HEADER, d, k);
      mid := mem[..];
      assert Shows(mid, view) && Linked(view, segs, |mid|);
      FreeSegment(ptr - HEADER, k);
    }

    /** Moves a used block to a larger one; `m0` is the memory after the allocation, `m1` after the copy. */
    method Move(ptr: nat, newSize: nat, ghost i: nat) returns (r: nat, ghost m0: Mem, ghost m1: Mem)
      requires Valid() && newSize + HEADER + HEADER < TWO64 && LinkInMemory(segs, i, mem.Length)
      requires segs[i].addr == ptr - HEADER && !segs[i].free && segs[i].size < newSize + HEADER
      modifies mem, this`view, this`segs
      ensures r == AllocChain(old(segs), newSize, false).1
      ensures r == 0 ==> Valid() && mem[..] == old(mem[..]) && segs == old(segs)
      ensures r != 0 ==> MovedOver(old(mem[..]), old(segs), i, newSize, m0, m1, mem[..], segs)
      ensures r != 0 && LinkOk(m1, AllocChain(old(segs), newSize, false).0, AfterTake(old(segs), newSize, i)) ==>
                Valid()
    {
      ghost var before, m := segs, mem[..];
      r := Allocate(newSize);
      m0, m1 := mem[..], mem[..];
      if r == 0 {
        return;
      }
      MoveIndex(before, newSize, false, i);
      assert Shows(m0, view) && Linked(view, segs, |m0|);
      m1 := CopyAndFree(ptr, r, AfterTake(before, newSize, i), FirstFit(before, 0, newSize + HEADER + HEADER));
    }

    /** Cuts a used block in place. */
    method Shrink(ptr: nat, newSize: nat, ghost i: nat)
      requires Valid() && i < |segs| && segs[i].addr == ptr - HEADER && segs[i].size >= newSize + HEADER
      modifies mem, this`view, this`segs
      ensures Valid() && segs == ShrinkChain(old(segs), i, newSize, false) && OnlyHeaders(old(mem[..]), mem[..], segs)
    {
      var _ := SplitSegment(ptr - HEADER, newSize + HEADER, i);
    }

    /**
     Resizes a block: in place if it is large enough, else by a move; `m0` and `m1` are the memories after the
     allocation and after the copy of a move.
     */
    method Reallocate(ptr: nat, newSize: nat, ghost i: nat) returns (r: nat, ghost m0: Mem, ghost m1: Mem)
      requires Valid() && newSize + HEADER + HEADER < TWO64 && (ptr != 0 ==> HEADER <= ptr <= mem.Length)
      requires ptr != 0 && mem[ptr - HEADER..ptr - HEADER + 7] == SIGNATURE ==>
                 LinkInMemory(segs, i, mem.Length) && segs[i].addr == ptr - HEADER && !segs[i].free
      modifies mem, this`view, this`segs
      ensures ptr == 0 ==>
                && Valid() && (segs, r) == AllocChain(old(segs), newSize, false)
                && OnlyHeaders(old(mem[..]), mem[..], segs)
      ensures ptr != 0 && old(mem[ptr - HEADER..ptr - HEADER + 7]) != SIGNATURE ==>
                Valid() && r == 0 && segs == old(segs) && mem[..] == old(mem[..])
      ensures ptr != 0 && old(mem[ptr - HEADER..ptr - HEADER + 7]) == SIGNATURE ==>
                && Resized(old(mem[..]), old(segs), i, newSize, r, m0, m1, mem[..], segs)
                && (ResizeHolds(old(segs), i, newSize, m1) ==> Valid())
                && (old(Tiles()) ==> (Tiles() <==> MoveHarmless(old(segs), i, newSize, false)))
    {
      m0, m1 := mem[..], mem[..];
      if ptr == 0 {
        r := Allocate(newSize);
        return;
      }
      if mem[ptr - HEADER..ptr - HEADER + 7] != SIGNATURE {
        return 0, m0, m1;
      }
      ghost var before, m := segs, mem[..];
      var h := Read(ptr - HEADER);
      if h.size >= newSize + HEADER {
        Shrink(ptr, newSize, i);
        r := ptr;
      } else {
        r, m0, m1 := Move(ptr, newSize, i);
      }
      ResizeTiles(m, before, i, newSize, r, m0, m1, mem[..], segs, firstSegment, heapSize, mem.Length);
    }
  }
}
