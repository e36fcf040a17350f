/**
 What `allocate`, `free` and `reallocate` do to the chain of segments, and what they keep of it.

 The split of the code breaks the back-link of the split segment's successor.  The operations are therefore described
 for both splits: the code's, and one that also repairs that back-link.
 */
module HeapCalls {
  import opened HeapMemory
  import opened HeapChain

  // ------------------------------------------------------------------------- the operations on chains

  /** The first free segment of at least `min` bytes; past the end if there is none. */
  function FirstFit(segs: seq<Seg>, from: nat, min: nat): (i: nat)
    requires from <= |segs|
    ensures from <= i <= |segs|
    ensures i < |segs| ==> segs[i].free && segs[i].size >= min
    ensures forall k :: from <= k < i ==> !(segs[k].free && segs[k].size >= min)
    decreases |segs| - from
  {
    if from == |segs| || (segs[from].free && segs[from].size >= min) then from else FirstFit(segs, from + 1, min)
  }

  /** The chain after an allocation, and the address handed out or 0. */
  function AllocChain(segs: seq<Seg>, n: nat, repaired: bool): (seq<Seg>, nat) {
    var i := FirstFit(segs, 0, n + HEADER + HEADER);
    if i == |segs| || !CanSplit(segs[i].size, n + HEADER) then (segs, 0)
    else
      var t := SplitWith(segs, i, n + HEADER, repaired);
      (t[i := t[i].(free := false)], segs[i].addr + HEADER)
  }

  /** The chain after the code has split segment `i` and marked its first part used. */
  function Taken(segs: seq<Seg>, i: nat, size: nat): seq<Seg>
    requires i < |segs| && size <= segs[i].size
  {
    var t := Split(segs, i, size);
    t[i := t[i].(free := false)]
  }

  /** The position of the segment at an address; past the end if there is none. */
  function IndexOf(segs: seq<Seg>, addr: nat, from: nat): (i: nat)
    requires from <= |segs|
    ensures from <= i <= |segs|
    ensures i < |segs| ==> segs[i].addr == addr
    ensures forall k :: from <= k < i ==> segs[k].addr != addr
    decreases |segs| - from
  {
    if from == |segs| || segs[from].addr == addr then from else IndexOf(segs, addr, from + 1)
  }

  lemma IndexIs(segs: seq<Seg>, addr: nat, i: nat)
    requires i <= |segs| && (i < |segs| ==> segs[i].addr == addr) && forall k :: 0 <= k < i ==> segs[k].addr != addr
    ensures IndexOf(segs, addr, 0) == i
  {
    if i < |segs| { assert segs[i].addr == addr; }
  }

  /** The back-link of segment `i` is empty or leads to an earlier segment of the chain. */
  predicate BackInChain(segs: seq<Seg>, i: nat) {
    i < |segs| && (segs[i].prev == 0 || IndexOf(segs, segs[i].prev, 0) < i)
  }

  /** A freed segment takes over its successor if that is free. */
  function MergedNext(segs: seq<Seg>, i: nat): (t: seq<Seg>)
    requires i < |segs|
    ensures i < |t|
  {
    if i + 1 < |segs| && segs[i + 1].free then Absorb(segs, i, i + 1) else segs
  }

  /** The segment its back-link names takes a freed segment over if that one is free. */
  function MergedPrev(segs: seq<Seg>, i: nat): seq<Seg>
    requires i < |segs|
  {
    var j := IndexOf(segs, segs[i].prev, 0);
    if segs[i].prev != 0 && j < i && segs[j].free then Absorb(segs, j, i) else segs
  }

  /** The chain when the successor of segment `i` is told that its predecessor is at `a`. */
  function Relinked(segs: seq<Seg>, i: nat, a: nat): seq<Seg>
    requires i < |segs|
  {
    if i + 1 < |segs| then segs[i + 1 := segs[i + 1].(prev := a)] else segs
  }

  /** The chain after a free whose back-link names a header that has left the chain, by the free bit found there. */
  function StaleFreeChain(segs: seq<Seg>, i: nat, staleFree: bool): seq<Seg>
    requires i < |segs|
  {
    var joined := MergedNext(Freed(segs, i), i);
    if staleFree then Relinked(joined, i, segs[i].prev) else joined
  }

  /** The chain after a free whose back-link leads into the chain. */
  function FreeChain(segs: seq<Seg>, i: nat): seq<Seg>
    requires i < |segs|
  {
    MergedPrev(MergedNext(Freed(segs, i), i), i)
  }

  /** The chain after a free over any back-link; `bit` is the free bit found where a link out of the chain leads. */
  function FreedChain(segs: seq<Seg>, i: nat, bit: bool): seq<Seg>
    requires i < |segs|
  {
    if BackInChain(segs, i) then FreeChain(segs, i) else StaleFreeChain(segs, i, bit)
  }

  function Freed(segs: seq<Seg>, i: nat): seq<Seg>
    requires i < |segs|
  {
    segs[i := segs[i].(free := true)]
  }

  /** Where segment `i` stands after an allocation has split another one. */
  function AfterTake(segs: seq<Seg>, n: nat, i: nat): nat {
    if AllocChain(segs, n, false).1 != 0 && FirstFit(segs, 0, n + HEADER + HEADER) < i then i + 1 else i
  }

  function MoveChain(segs: seq<Seg>, i: nat, n: nat, repaired: bool, bit: bool): (seq<Seg>, nat)
    requires i < |segs|
  {
    var (t, q) := AllocChain(segs, n, repaired);
    var k := AfterTake(segs, n, i);
    if q == 0 then (segs, 0) else (FreedChain(t, k, bit), q)
  }

  /** The chain after a block that is large enough is cut in place. */
  function ShrinkChain(segs: seq<Seg>, i: nat, n: nat, repaired: bool): seq<Seg>
    requires i < |segs| && segs[i].size >= n + HEADER
  {
    if CanSplit(segs[i].size, n + HEADER) then SplitWith(segs, i, n + HEADER, repaired) else segs
  }

  /** The chain after a used block is resized, and the address of the block or 0. */
  function ReallocChain(segs: seq<Seg>, i: nat, n: nat, repaired: bool, bit: bool): (seq<Seg>, nat)
    requires i < |segs|
  {
    if segs[i].size >= n + HEADER then
      (ShrinkChain(segs, i, n, repaired), segs[i].addr + HEADER)
    else
      MoveChain(segs, i, n, repaired, bit)
  }

  // ------------------------------------------------------------------------- chains that tile the heap

  /** Marking a segment moves nothing. */
  lemma FlagTiled(segs: seq<Seg>, i: nat, free: bool, base: nat, end: nat)
    requires Tiled(segs, base, end) && i < |segs|
    ensures Tiled(segs[i := segs[i].(free := free)], base, end)
  {
    var t := segs[i := segs[i].(free := free)];
    forall k | 0 <= k < |t| ensures Meets(t, k, end) {
      assert Meets(segs, k, end);
    }
  }

  lemma AllocTiled(segs: seq<Seg>, n: nat, repaired: bool, base: nat, end: nat)
    requires Tiled(segs, base, end)
    ensures Tiled(AllocChain(segs, n, repaired).0, base, end)
  {
    var i := FirstFit(segs, 0, n + HEADER + HEADER);
    if i < |segs| && CanSplit(segs[i].size, n + HEADER) {
      SplitTiled(segs, i, n + HEADER, repaired, base, end);
      FlagTiled(SplitWith(segs, i, n + HEADER, repaired), i, false, base, end);
    }
  }

  /** The two outcomes of an allocation, with the parts that the code computes. */
  lemma AllocCases(segs: seq<Seg>, n: nat, i: nat)
    requires i == FirstFit(segs, 0, n + HEADER + HEADER)
    ensures AllocChain(segs, n, false) ==
            if i == |segs| || !CanSplit(segs[i].size, n + HEADER) then (segs, 0)
            else (Taken(segs, i, n + HEADER), segs[i].addr + HEADER)
  {
  }

  /** The first merge of a free keeps the tiling, the segments up to the freed one, and what its back-link names. */
  lemma MergedNextKeeps(segs: seq<Seg>, i: nat, base: nat, end: nat)
    requires Tiled(segs, base, end) && i < |segs|
    ensures var t := MergedNext(segs, i);
            && Tiled(t, base, end) && i < |t| && t[i].prev == segs[i].prev
            && (forall k :: 0 <= k <= i ==> t[k].addr == segs[k].addr)
            && (forall k :: 0 <= k < i ==> t[k] == segs[k])
  {
    if i + 1 < |segs| && segs[i + 1].free {
      AbsorbTiled(segs, i, i + 1, base, end);
    }
  }

  /** An address found among the first segments is found at the same place in a chain that starts alike. */
  lemma IndexOfAlike(segs: seq<Seg>, t: seq<Seg>, addr: nat, i: nat)
    requires i < |segs| && i < |t| && forall k :: 0 <= k <= i ==> t[k].addr == segs[k].addr
    requires IndexOf(segs, addr, 0) <= i
    ensures IndexOf(t, addr, 0) == IndexOf(segs, addr, 0)
  {
    var a, b := IndexOf(segs, addr, 0), IndexOf(t, addr, 0);
    assert t[a].addr == addr;
  }

  /** A used segment of that size starts at that address. */
  ghost predicate Used(segs: seq<Seg>, addr: nat, size: nat) {
    exists k :: 0 <= k < |segs| && segs[k].addr == addr && segs[k].size == size && !segs[k].free
  }

  lemma IndexUnique(segs: seq<Seg>, base: nat, end: nat, j: nat, k: nat)
    requires Tiled(segs, base, end) && j < |segs| && k < |segs| && segs[j].addr == segs[k].addr
    ensures j == k
  {
    if j < k { TiledOrdered(segs, base, end, j, k); TiledInside(segs, base, end, j); }
    if k < j { TiledOrdered(segs, base, end, k, j); TiledInside(segs, base, end, k); }
  }

  // ------------------------------------------------------------------------- harmless back-links

  /** The back-link is empty, names a used segment of the chain, or names the neighbour. */
  ghost predicate Harmless(segs: seq<Seg>, i: nat) {
    && BackInChain(segs, i)
    && (segs[i].prev == 0 || !segs[IndexOf(segs, segs[i].prev, 0)].free || IndexOf(segs, segs[i].prev, 0) == i - 1)
  }

  /** The second merge of a free finds what the back-link named before the first. */
  lemma JoinedPrev(segs: seq<Seg>, i: nat, base: nat, end: nat)
    requires Tiled(segs, base, end) && BackInChain(segs, i)
    ensures var joined := MergedNext(Freed(segs, i), i);
            && Tiled(joined, base, end) && i < |joined| && joined[i].addr == segs[i].addr
            && (segs[i].prev == 0 ==> FreeChain(segs, i) == joined)
            && (segs[i].prev != 0 ==>
                  var j := IndexOf(segs, segs[i].prev, 0);
                  && j < i && joined[j] == segs[j]
                  && FreeChain(segs, i) == if segs[j].free then Absorb(joined, j, i) else joined)
  {
    var freed := Freed(segs, i);
    FlagTiled(segs, i, true, base, end);
    MergedNextKeeps(freed, i, base, end);
    if segs[i].prev != 0 { IndexOfAlike(segs, MergedNext(freed, i), segs[i].prev, i); }
  }

  /** With a back-link into the chain, right or wrong, a free keeps the tiling exactly if the link is harmless. */
  lemma FreeInChainTiled(segs: seq<Seg>, i: nat, base: nat, end: nat)
    requires Tiled(segs, base, end) && BackInChain(segs, i)
    ensures Tiled(FreeChain(segs, i), base, end) <==> Harmless(segs, i)
  {
    JoinedPrev(segs, i, base, end);
    var j := IndexOf(segs, segs[i].prev, 0);
    if segs[i].prev != 0 && segs[j].free { AbsorbTiled(MergedNext(Freed(segs, i), i), j, i, base, end); }
  }

  /** A free whose back-link leads out of the chain keeps the tiling. */
  lemma StaleFreeTiled(segs: seq<Seg>, i: nat, bit: bool, base: nat, end: nat)
    requires Tiled(segs, base, end) && i < |segs|
    ensures Tiled(StaleFreeChain(segs, i, bit), base, end)
  {
    var joined, t := MergedNext(Freed(segs, i), i), StaleFreeChain(segs, i, bit);
    FlagTiled(segs, i, true, base, end);
    MergedNextKeeps(Freed(segs, i), i, base, end);
    forall k | 0 <= k < |t| ensures Meets(t, k, end) {
      assert Meets(joined, k, end);
    }
  }

  /** A free over any back-link keeps the tiling exactly if the link leads out of the chain or is harmless. */
  lemma FreeTiledExactly(segs: seq<Seg>, i: nat, bit: bool, base: nat, end: nat)
    requires Tiled(segs, base, end) && i < |segs|
    ensures Tiled(FreedChain(segs, i, bit), base, end) <==> !BackInChain(segs, i) || Harmless(segs, i)
  {
    if BackInChain(segs, i) {
      FreeInChainTiled(segs, i, base, end);
    } else {
      StaleFreeTiled(segs, i, bit, base, end);
    }
  }

  /** A used block is still in the chain once another was allocated, and the new one is another segment. */
  lemma MoveIndex(segs: seq<Seg>, n: nat, repaired: bool, i: nat)
    requires i < |segs| && !segs[i].free && AllocChain(segs, n, repaired).1 != 0
    ensures var (t, q) := AllocChain(segs, n, repaired);
            var k, d := AfterTake(segs, n, i), FirstFit(segs, 0, n + HEADER + HEADER);
            && k < |t| && t[k].addr == segs[i].addr && t[k].size == segs[i].size && !t[k].free
            && (!repaired ==> t[k] == segs[i])
            && d < |t| && d != k && t[d].addr + HEADER == q && t[d].size == n + HEADER && !t[d].free
  {
  }

  /** A resize that moves the block frees the old one over a link out of the chain or a harmless one. */
  ghost predicate MoveHarmless(segs: seq<Seg>, i: nat, n: nat, repaired: bool)
    requires i < |segs|
  {
    segs[i].size < n + HEADER && AllocChain(segs, n, repaired).1 != 0 ==>
      var (t, k) := (AllocChain(segs, n, repaired).0, AfterTake(segs, n, i));
      !BackInChain(t, k) || Harmless(t, k)
  }

  /** A resize keeps the tiling exactly if it does not move the block, or frees the old one without harm. */
  lemma ReallocTiledExactly(segs: seq<Seg>, i: nat, n: nat, repaired: bool, bit: bool, base: nat, end: nat)
    requires Tiled(segs, base, end) && i < |segs| && !segs[i].free
    ensures Tiled(ReallocChain(segs, i, n, repaired, bit).0, base, end) <==> MoveHarmless(segs, i, n, repaired)
  {
    if segs[i].size >= n + HEADER {
      if CanSplit(segs[i].size, n + HEADER) { SplitTiled(segs, i, n + HEADER, repaired, base, end); }
    } else if AllocChain(segs, n, repaired).1 != 0 {
      AllocTiled(segs, n, repaired, base, end);
      MoveIndex(segs, n, repaired, i);
      FreeTiledExactly(AllocChain(segs, n, repaired).0, AfterTake(segs, n, i), bit, base, end);
    }
  }

  /** What a back-link names stands at its own place or one further, once another segment was split. */
  lemma LinkAfterTake(segs: seq<Seg>, i: nat, n: nat, base: nat, end: nat)
    requires Tiled(segs, base, end) && i < |segs| && !segs[i].free && segs[i].prev != 0
    requires AllocChain(segs, n, false).1 != 0
    requires BackInChain(segs, i)
    ensures var t, k := AllocChain(segs, n, false).0, AfterTake(segs, n, i);
            var j, d := IndexOf(segs, segs[i].prev, 0), FirstFit(segs, 0, n + HEADER + HEADER);
            && k < |t| && t[k] == segs[i] && IndexOf(t, segs[i].prev, 0) == (if j <= d then j else j + 1) < k
            && t[if j <= d then j else j + 1].free == (segs[j].free && j != d)
  {
    var t, k := AllocChain(segs, n, false).0, AfterTake(segs, n, i);
    var j, d := IndexOf(segs, segs[i].prev, 0), FirstFit(segs, 0, n + HEADER + HEADER);
    var j' := if j <= d then j else j + 1;
    AllocTiled(segs, n, false, base, end);
    assert t[j'].addr == segs[i].prev && j' < k;
    IndexUnique(t, base, end, IndexOf(t, segs[i].prev, 0), j');
  }

  /** Harm can be told before the call: the move is harmless if the link is, or names the segment that will be split. */
  lemma MoveHarmlessBefore(segs: seq<Seg>, i: nat, n: nat, base: nat, end: nat)
    requires Tiled(segs, base, end) && BackInChain(segs, i) && !segs[i].free
    requires segs[i].size < n + HEADER && AllocChain(segs, n, false).1 != 0
    ensures MoveHarmless(segs, i, n, false) <==>
            || Harmless(segs, i)
            || IndexOf(segs, segs[i].prev, 0) == FirstFit(segs, 0, n + HEADER + HEADER)
  {
    if segs[i].prev != 0 { LinkAfterTake(segs, i, n, base, end); }
  }

  // ------------------------------------------------------------------------- back-links point below

  /** Every back-link, right or wrong, names an address below its own segment. */
  ghost predicate LinksBelow(segs: seq<Seg>) {
    forall k :: 0 <= k < |segs| ==> segs[k].prev < segs[k].addr
  }

  lemma AbsorbBelow(segs: seq<Seg>, j: nat, k: nat, limit: nat)
    requires Spaced(segs, limit) && LinksBelow(segs) && j < k < |segs|
    ensures LinksBelow(Absorb(segs, j, k))
  {
    var t := Absorb(segs, j, k);
    forall x | 0 <= x < |t| ensures t[x].prev < t[x].addr {
      if x == j + 1 { assert segs[j].addr + segs[j].size <= segs[k + 1].addr; }
    }
  }

  lemma SplitBelow(segs: seq<Seg>, i: nat, size: nat, repaired: bool, limit: nat)
    requires Spaced(segs, limit) && LinksBelow(segs) && i < |segs| && 0 < size < segs[i].size
    ensures LinksBelow(SplitWith(segs, i, size, repaired))
  {
    var t := SplitWith(segs, i, size, repaired);
    forall x | 0 <= x < |t| ensures t[x].prev < t[x].addr {
      if x == i + 2 && repaired { assert segs[i].addr + segs[i].size <= segs[i + 1].addr; }
    }
  }

  lemma AllocBelow(segs: seq<Seg>, n: nat, repaired: bool, limit: nat)
    requires Spaced(segs, limit) && LinksBelow(segs)
    ensures LinksBelow(AllocChain(segs, n, repaired).0)
  {
    var i := FirstFit(segs, 0, n + HEADER + HEADER);
    if i < |segs| && CanSplit(segs[i].size, n + HEADER) { SplitBelow(segs, i, n + HEADER, repaired, limit); }
  }

  lemma ShrinkBelow(segs: seq<Seg>, i: nat, n: nat, repaired: bool, limit: nat)
    requires Spaced(segs, limit) && LinksBelow(segs) && i < |segs| && segs[i].size >= n + HEADER
    ensures LinksBelow(ShrinkChain(segs, i, n, repaired))
  {
    if CanSplit(segs[i].size, n + HEADER) { SplitBelow(segs, i, n + HEADER, repaired, limit); }
  }

  /** The first merge of a free keeps segments one behind the other, and links below. */
  lemma JoinedBelow(segs: seq<Seg>, i: nat, limit: nat)
    requires Spaced(segs, limit) && LinksBelow(segs) && i < |segs|
    ensures var joined := MergedNext(Freed(segs, i), i); Spaced(joined, limit) && LinksBelow(joined)
  {
    var freed := Freed(segs, i);
    assert Spaced(freed, limit) && LinksBelow(freed);
    if i + 1 < |freed| && freed[i + 1].free {
      AbsorbSpaced(freed, i, i + 1, limit);
      AbsorbBelow(freed, i, i + 1, limit);
    }
  }

  lemma FreedBelow(segs: seq<Seg>, i: nat, bit: bool, limit: nat)
    requires Spaced(segs, limit) && LinksBelow(segs) && i < |segs|
    ensures LinksBelow(FreedChain(segs, i, bit))
  {
    JoinedBelow(segs, i, limit);
    var joined := MergedNext(Freed(segs, i), i);
    var j := IndexOf(joined, joined[i].prev, 0);
    if BackInChain(segs, i) {
      if j < i { AbsorbBelow(joined, j, i, limit); }
    } else {
      RelinkedBelow(joined, i, segs[i].prev, limit);
      assert joined[i].prev == segs[i].prev;
    }
  }

  lemma RelinkedBelow(segs: seq<Seg>, i: nat, a: nat, limit: nat)
    requires Spaced(segs, limit) && LinksBelow(segs) && i < |segs| && a < segs[i].addr
    ensures LinksBelow(Relinked(segs, i, a))
  {
    if i + 1 < |segs| { assert segs[i].addr + segs[i].size <= segs[i + 1].addr; }
  }

  // ------------------------------------------------------------------------- exact back-links

  /** The chain tiles the heap, with exact back-links. */
  ghost predicate Exact(segs: seq<Seg>, base: nat, end: nat) {
    0 < base && Tiled(segs, base, end) && BackExact(segs)
  }

  /** A back-link that names the neighbour is found there. */
  lemma NeighbourHarmless(segs: seq<Seg>, i: nat, base: nat, end: nat)
    requires 0 < base && Tiled(segs, base, end) && BackAt(segs, i)
    ensures Harmless(segs, i) && (i > 0 ==> segs[i].prev != 0 && IndexOf(segs, segs[i].prev, 0) == i - 1)
  {
    if i > 0 {
      TiledInside(segs, base, end, i - 1);
      IndexUnique(segs, base, end, IndexOf(segs, segs[i].prev, 0), i - 1);
    }
  }

  /** From exact back-links, every free is harmless, even the one of a move whose allocation has just broken a link. */
  lemma ExactHarmless(segs: seq<Seg>, i: nat, n: nat, repaired: bool, base: nat, end: nat)
    requires Exact(segs, base, end) && i < |segs|
    ensures Harmless(segs, i)
    ensures !segs[i].free && AllocChain(segs, n, repaired).1 != 0 ==>
              Harmless(AllocChain(segs, n, repaired).0, AfterTake(segs, n, i))
  {
    assert BackAt(segs, i);
    NeighbourHarmless(segs, i, base, end);
    if !segs[i].free && AllocChain(segs, n, repaired).1 != 0 { TakenHarmless(segs, i, n, repaired, base, end); }
  }

  /** The one link that the code's split breaks names the segment it takes, which is used. */
  lemma TakenHarmless(segs: seq<Seg>, i: nat, n: nat, repaired: bool, base: nat, end: nat)
    requires Exact(segs, base, end) && i < |segs| && !segs[i].free && AllocChain(segs, n, repaired).1 != 0
    ensures Harmless(AllocChain(segs, n, repaired).0, AfterTake(segs, n, i))
  {
    var t, k, d := AllocChain(segs, n, repaired).0, AfterTake(segs, n, i), FirstFit(segs, 0, n + HEADER + HEADER);
    AllocTiled(segs, n, repaired, base, end);
    assert BackAt(segs, i);
    if k == d + 2 && !repaired {
      assert t[k].prev == t[d].addr;
      IndexUnique(t, base, end, IndexOf(t, t[k].prev, 0), d);
    } else {
      assert BackAt(t, k);
      NeighbourHarmless(t, k, base, end);
    }
  }

  // ------------------------------------------------------------------------- allocating

  /** The split of an allocation hits the last segment, or none. */
  ghost predicate AllocAtEnd(segs: seq<Seg>, n: nat) {
    FirstFit(segs, 0, n + HEADER + HEADER) >= |segs| - 1
  }

  lemma AllocExact(segs: seq<Seg>, n: nat, repaired: bool, base: nat, end: nat)
    requires Exact(segs, base, end) && (repaired || AllocAtEnd(segs, n))
    ensures Exact(AllocChain(segs, n, repaired).0, base, end)
  {
    var i := FirstFit(segs, 0, n + HEADER + HEADER);
    AllocTiled(segs, n, repaired, base, end);
    if i < |segs| && CanSplit(segs[i].size, n + HEADER) {
      SplitBackExact(segs, i, n + HEADER, repaired);
      FlagBackExact(SplitWith(segs, i, n + HEADER, repaired), i, false);
    }
  }

  lemma AllocNoAdjacent(segs: seq<Seg>, n: nat, repaired: bool)
    requires NoAdjacentFree(segs)
    ensures NoAdjacentFree(AllocChain(segs, n, repaired).0)
  {
    var t, i := AllocChain(segs, n, repaired).0, FirstFit(segs, 0, n + HEADER + HEADER);
    forall k: nat ensures !FreePair(t, k) {
      assert !FreePair(segs, if k <= i || |t| == |segs| then k else k - 1);
    }
  }

  /** An allocation keeps every used segment. */
  lemma AllocUsed(segs: seq<Seg>, n: nat, repaired: bool, addr: nat, size: nat)
    requires Used(segs, addr, size)
    ensures Used(AllocChain(segs, n, repaired).0, addr, size)
  {
    var k :| 0 <= k < |segs| && segs[k].addr == addr && segs[k].size == size && !segs[k].free;
    var (t, q) := AllocChain(segs, n, repaired);
    if q != 0 {
      var k' := if k <= FirstFit(segs, 0, n + HEADER + HEADER) then k else k + 1;
      assert t[k'].addr == addr && t[k'].size == size && !t[k'].free;
    }
  }

  /** An allocation adds a used segment of the requested size, where none was. */
  lemma AllocAdds(segs: seq<Seg>, n: nat, repaired: bool, base: nat, end: nat, size: nat)
    requires Tiled(segs, base, end) && AllocChain(segs, n, repaired).1 != 0
    ensures var (t, q) := AllocChain(segs, n, repaired);
            q >= HEADER && Used(t, q - HEADER, n + HEADER) && !Used(segs, q - HEADER, size)
  {
    var (t, q) := AllocChain(segs, n, repaired);
    var i := FirstFit(segs, 0, n + HEADER + HEADER);
    assert t[i].addr == q - HEADER && t[i].size == n + HEADER && !t[i].free;
    if k :| 0 <= k < |segs| && segs[k].addr == q - HEADER && segs[k].size == size && !segs[k].free {
      IndexUnique(segs, base, end, i, k);
      assert false;
    }
  }

  // ------------------------------------------------------------------------- freeing

  lemma MergedNextExact(segs: seq<Seg>, i: nat)
    requires BackExact(segs) && i < |segs|
    ensures BackExact(MergedNext(segs, i))
  {
    if i + 1 < |segs| && segs[i + 1].free { AbsorbBackExact(segs, i); }
  }

  /** With exact back-links, the second merge of a free is with the neighbour. */
  lemma FreeNeighbour(segs: seq<Seg>, i: nat, base: nat, end: nat)
    requires Exact(segs, base, end) && i < |segs|
    ensures var joined := MergedNext(Freed(segs, i), i);
            && Tiled(joined, base, end) && BackExact(joined) && i < |joined|
            && FreeChain(segs, i) == if i > 0 && joined[i - 1].free then Absorb(joined, i - 1, i) else joined
  {
    assert BackAt(segs, i);
    NeighbourHarmless(segs, i, base, end);
    JoinedPrev(segs, i, base, end);
    FlagBackExact(segs, i, true);
    MergedNextExact(Freed(segs, i), i);
  }

  /** From exact back-links, a free leaves exact back-links. */
  lemma FreeExact(segs: seq<Seg>, i: nat, base: nat, end: nat)
    requires Exact(segs, base, end) && i < |segs|
    ensures Exact(FreeChain(segs, i), base, end)
  {
    FreeNeighbour(segs, i, base, end);
    var joined := MergedNext(Freed(segs, i), i);
    if i > 0 && joined[i - 1].free {
      AbsorbTiled(joined, i - 1, i, base, end);
      AbsorbBackExact(joined, i - 1);
    }
  }

  /** After the first merge of a free, only the pair in front of the freed segment may be both free. */
  lemma FreedAdjacent(segs: seq<Seg>, i: nat, k: nat)
    requires NoAdjacentFree(segs) && i < |segs| && k + 1 != i
    ensures !FreePair(MergedNext(Freed(segs, i), i), k)
  {
    assert !FreePair(segs, k) && !FreePair(segs, k + 1);
  }

  /** The second merge removes that pair. */
  lemma JoinedAdjacent(segs: seq<Seg>, i: nat, k: nat)
    requires i < |segs| && segs[i].free
    requires forall j: nat {:trigger FreePair(segs, j)} :: j + 1 != i ==> !FreePair(segs, j)
    ensures !FreePair(if i > 0 && segs[i - 1].free then Absorb(segs, i - 1, i) else segs, k)
  {
    assert k + 1 != i ==> !FreePair(segs, k);
    assert !FreePair(segs, k + 1) || k + 2 == i;
  }

  lemma FreeNoAdjacent(segs: seq<Seg>, i: nat, base: nat, end: nat)
    requires Exact(segs, base, end) && NoAdjacentFree(segs) && i < |segs|
    ensures NoAdjacentFree(FreeChain(segs, i))
  {
    FreeNeighbour(segs, i, base, end);
    var joined := MergedNext(Freed(segs, i), i);
    forall k: nat | k + 1 != i ensures !FreePair(joined, k) { FreedAdjacent(segs, i, k); }
    forall k: nat ensures !FreePair(FreeChain(segs, i), k) { JoinedAdjacent(joined, i, k); }
  }

  /** Merging two free neighbours keeps every used segment. */
  lemma AbsorbUsed(segs: seq<Seg>, j: nat, addr: nat, size: nat)
    requires j + 1 < |segs| && segs[j].free && segs[j + 1].free && Used(segs, addr, size)
    ensures Used(Absorb(segs, j, j + 1), addr, size)
  {
    var k :| 0 <= k < |segs| && segs[k].addr == addr && segs[k].size == size && !segs[k].free;
    var k', t := if k < j then k else k - 1, Absorb(segs, j, j + 1);
    assert t[k'].addr == addr && t[k'].size == size && !t[k'].free;
  }

  lemma JoinedUsed(segs: seq<Seg>, i: nat, addr: nat, size: nat)
    requires i < |segs| && Used(segs, addr, size) && addr != segs[i].addr
    ensures Used(MergedNext(Freed(segs, i), i), addr, size)
  {
    var freed := Freed(segs, i);
    var k :| 0 <= k < |segs| && segs[k].addr == addr && segs[k].size == size && !segs[k].free;
    assert freed[k] == segs[k];
    if i + 1 < |freed| && freed[i + 1].free { AbsorbUsed(freed, i, addr, size); }
  }

  /** A free over a harmless back-link keeps every other used segment. */
  lemma FreeUsed(segs: seq<Seg>, i: nat, base: nat, end: nat, addr: nat, size: nat)
    requires Tiled(segs, base, end) && Harmless(segs, i) && Used(segs, addr, size) && addr != segs[i].addr
    ensures Used(FreeChain(segs, i), addr, size)
  {
    var joined := MergedNext(Freed(segs, i), i);
    JoinedUsed(segs, i, addr, size);
    JoinedPrev(segs, i, base, end);
    if segs[i].prev != 0 && segs[IndexOf(segs, segs[i].prev, 0)].free { AbsorbUsed(joined, i - 1, addr, size); }
  }

  /** So does a free over a back-link out of the chain. */
  lemma StaleFreeUsed(segs: seq<Seg>, i: nat, staleFree: bool, addr: nat, size: nat)
    requires i < |segs| && Used(segs, addr, size) && addr != segs[i].addr
    ensures Used(StaleFreeChain(segs, i, staleFree), addr, size)
  {
    var joined, t := MergedNext(Freed(segs, i), i), StaleFreeChain(segs, i, staleFree);
    JoinedUsed(segs, i, addr, size);
    var k :| 0 <= k < |joined| && joined[k].addr == addr && joined[k].size == size && !joined[k].free;
    assert t[k].addr == addr && t[k].size == size && !t[k].free;
  }

  // ------------------------------------------------------------------------- resizing

  /** The split of a resize in place hits the last segment, or none. */
  ghost predicate ShrinkAtEnd(segs: seq<Seg>, i: nat, n: nat)
    requires i < |segs|
  {
    i == |segs| - 1 || !CanSplit(segs[i].size, n + HEADER)
  }

  /** Shrinking a used block keeps every other one. */
  lemma ShrinkOthers(segs: seq<Seg>, i: nat, n: nat, repaired: bool, addr: nat, size: nat)
    requires Splittable(segs, i, n) && Used(segs, addr, size) && addr != segs[i].addr
    ensures Used(SplitWith(segs, i, n, repaired), addr, size)
  {
    var t := SplitWith(segs, i, n, repaired);
    var k :| 0 <= k < |segs| && segs[k].addr == addr && segs[k].size == size && !segs[k].free;
    var k' := if k < i then k else k + 1;
    assert t[k'].addr == addr && t[k'].size == size && !t[k'].free;
  }

  /** Shrinking leaves a used block with the new size; its old tail stays used, with no block in it. */
  lemma ShrinkTail(segs: seq<Seg>, i: nat, n: nat, repaired: bool)
    requires Splittable(segs, i, n) && !segs[i].free
    ensures var t := SplitWith(segs, i, n, repaired);
            Used(t, segs[i].addr, n) && Used(t, segs[i].addr + n, segs[i].size - n)
  {
    var t := SplitWith(segs, i, n, repaired);
    assert t[i].addr == segs[i].addr && t[i + 1].addr == segs[i].addr + n;
  }

  lemma ShrinkNoAdjacent(segs: seq<Seg>, i: nat, n: nat, repaired: bool)
    requires NoAdjacentFree(segs) && Splittable(segs, i, n) && !segs[i].free
    ensures NoAdjacentFree(SplitWith(segs, i, n, repaired))
  {
    var t := SplitWith(segs, i, n, repaired);
    forall k: nat ensures !FreePair(t, k) {
      assert !FreePair(segs, if k <= i then k else k - 1);
    }
  }

  /** A resize in place keeps exact back-links if its split is repaired, or hits the last segment. */
  lemma ShrinkExact(segs: seq<Seg>, i: nat, n: nat, repaired: bool, base: nat, end: nat)
    requires Exact(segs, base, end) && i < |segs| && !segs[i].free && segs[i].size >= n + HEADER
    requires repaired || ShrinkAtEnd(segs, i, n)
    ensures Exact(ShrinkChain(segs, i, n, repaired), base, end)
    ensures NoAdjacentFree(segs) ==> NoAdjacentFree(ShrinkChain(segs, i, n, repaired))
  {
    if CanSplit(segs[i].size, n + HEADER) {
      SplitTiled(segs, i, n + HEADER, repaired, base, end);
      SplitBackExact(segs, i, n + HEADER, repaired);
      if NoAdjacentFree(segs) { ShrinkNoAdjacent(segs, i, n + HEADER, repaired); }
    }
  }
}
