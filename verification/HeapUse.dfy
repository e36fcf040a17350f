/**
 What the memory of the kernel heap is used for: a used segment is a live block or a tail that a shrink has left, and
 everything else is free.
 */
module HeapUse {
  import opened HeapMemory
  import opened HeapChain
  import opened HeapCalls
  import opened HeapBytes
  import opened HeapRuns

  // ------------------------------------------------------------------------- the used segments after a call

  /** After a successful allocation the used segments are the old ones and the one granted. */
  lemma AllocUse(segs: seq<Seg>, n: nat, repaired: bool, t: seq<Seg>, r: nat, a: nat, size: nat)
    requires (t, r) == AllocChain(segs, n, repaired) && r != 0
    ensures Used(t, a, size) <==> Used(segs, a, size) || (a + HEADER == r && size == n + HEADER)
  {
    var i := FirstFit(segs, 0, n + HEADER + HEADER);
    if Used(segs, a, size) { AllocUsed(segs, n, repaired, a, size); }
    if a + HEADER == r && size == n + HEADER { assert t[i].addr == a && t[i].size == size && !t[i].free; }
    if Used(t, a, size) && !(a + HEADER == r && size == n + HEADER) {
      var k :| 0 <= k < |t| && t[k].addr == a && t[k].size == size && !t[k].free;
      assert k != i && k != i + 1;
      var k' := if k < i then k else k - 1;
      assert segs[k'].addr == a && segs[k'].size == size && !segs[k'].free;
    }
  }

  /** Merging two free neighbours changes no used segment. */
  lemma AbsorbUse(segs: seq<Seg>, j: nat, a: nat, size: nat)
    requires j + 1 < |segs| && segs[j].free && segs[j + 1].free
    ensures Used(Absorb(segs, j, j + 1), a, size) <==> Used(segs, a, size)
  {
    var t := Absorb(segs, j, j + 1);
    if Used(segs, a, size) { AbsorbUsed(segs, j, a, size); }
    if Used(t, a, size) {
      var k :| 0 <= k < |t| && t[k].addr == a && t[k].size == size && !t[k].free;
      var k' := if k < j then k else k + 1;
      assert segs[k'].addr == a && segs[k'].size == size && !segs[k'].free;
    }
  }

  /** The first merge of a free: the freed segment is used no more, all others as before. */
  lemma JoinedUse(segs: seq<Seg>, i: nat, base: nat, end: nat, a: nat, size: nat)
    requires Tiled(segs, base, end) && i < |segs|
    ensures Used(Joined(segs, i), a, size) <==> Used(segs, a, size) && a != segs[i].addr
  {
    var freed := segs[i := segs[i].(free := true)];
    if Used(segs, a, size) && a != segs[i].addr { JoinedUsed(segs, i, a, size); }
    if i + 1 < |freed| && freed[i + 1].free { AbsorbUse(freed, i, a, size); }
    if Used(freed, a, size) {
      var k :| 0 <= k < |freed| && freed[k].addr == a && freed[k].size == size && !freed[k].free;
      assert k != i && segs[k] == freed[k];
      if a == segs[i].addr { IndexUnique(segs, base, end, i, k); }
    }
  }

  lemma RelinkedUse(segs: seq<Seg>, i: nat, s: nat, a: nat, size: nat)
    requires i < |segs|
    ensures Used(Relinked(segs, i, s), a, size) <==> Used(segs, a, size)
  {
    var t := Relinked(segs, i, s);
    if Used(segs, a, size) {
      var k :| 0 <= k < |segs| && segs[k].addr == a && segs[k].size == size && !segs[k].free;
      assert t[k].addr == a && t[k].size == size && !t[k].free;
    }
    if Used(t, a, size) {
      var k :| 0 <= k < |t| && t[k].addr == a && t[k].size == size && !t[k].free;
      assert segs[k].addr == a && segs[k].size == size && !segs[k].free;
    }
  }

  /** After a free that keeps the tiling, the used segments are the old ones but the freed one. */
  lemma FreeUse(m: Mem, segs: seq<Seg>, i: nat, r: Mem, t: seq<Seg>, base: nat, end: nat, a: nat, size: nat)
    requires Tiled(segs, base, end) && LinkInMemory(segs, i, |m|) && FreedOver(m, segs, i, r, t)
    requires BackInChain(segs, i) ==> Harmless(segs, i)
    ensures Used(t, a, size) <==> Used(segs, a, size) && a != segs[i].addr
  {
    FreedChainIs(m, segs, i, r, t);
    FreedUse(segs, i, FreedBit(m, segs, i), base, end, a, size);
  }

  lemma FreedUse(segs: seq<Seg>, i: nat, bit: bool, base: nat, end: nat, a: nat, size: nat)
    requires Tiled(segs, base, end) && i < |segs| && (BackInChain(segs, i) ==> Harmless(segs, i))
    ensures Used(FreedChain(segs, i, bit), a, size) <==> Used(segs, a, size) && a != segs[i].addr
  {
    JoinedUse(segs, i, base, end, a, size);
    if BackInChain(segs, i) {
      JoinedPrev(segs, i, base, end);
      var joined := Joined(segs, i);
      if segs[i].prev != 0 && segs[IndexOf(segs, segs[i].prev, 0)].free { JoinedMerge(segs, i, base, end, a, size); }
    } else if bit {
      RelinkedUse(Joined(segs, i), i, segs[i].prev, a, size);
    }
  }

  lemma JoinedMerge(segs: seq<Seg>, i: nat, base: nat, end: nat, a: nat, size: nat)
    requires Tiled(segs, base, end) && Harmless(segs, i) && segs[i].prev != 0
    requires segs[IndexOf(segs, segs[i].prev, 0)].free
    ensures Used(FreeChain(segs, i), a, size) <==> Used(Joined(segs, i), a, size)
  {
    JoinedPrev(segs, i, base, end);
    assert Joined(segs, i)[i].free;
    AbsorbUse(Joined(segs, i), i - 1, a, size);
  }

  /** No segment starts inside another. */
  lemma NoneInside(segs: seq<Seg>, i: nat, base: nat, end: nat, a: nat, size: nat)
    requires Tiled(segs, base, end) && i < |segs| && segs[i].addr < a < segs[i].addr + segs[i].size
    ensures !Used(segs, a, size)
  {
    if k :| 0 <= k < |segs| && segs[k].addr == a && segs[k].size == size && !segs[k].free {
      if k < i { TiledOrdered(segs, base, end, k, i); }
      if i < k { TiledOrdered(segs, base, end, i, k); }
      TiledInside(segs, base, end, k);
      assert false;
    }
  }

  /** After a shrink that splits, the used segments are the others, the shorter block and its old tail. */
  lemma ShrinkUse(segs: seq<Seg>, i: nat, n: nat, repaired: bool, base: nat, end: nat, a: nat, size: nat)
    requires Tiled(segs, base, end) && Splittable(segs, i, n) && !segs[i].free
    ensures Used(SplitWith(segs, i, n, repaired), a, size) <==>
            || (Used(segs, a, size) && a != segs[i].addr)
            || (a == segs[i].addr && size == n)
            || (a == segs[i].addr + n && size == segs[i].size - n)
  {
    var t := SplitWith(segs, i, n, repaired);
    if Used(segs, a, size) && a != segs[i].addr { ShrinkOthers(segs, i, n, repaired, a, size); }
    ShrinkTail(segs, i, n, repaired);
    if Used(t, a, size) {
      var k :| 0 <= k < |t| && t[k].addr == a && t[k].size == size && !t[k].free;
      if k != i && k != i + 1 {
        var k' := if k < i then k else k - 1;
        assert segs[k'].addr == a && segs[k'].size == size && !segs[k'].free;
        if a == segs[i].addr { IndexUnique(segs, base, end, i, k'); }
      }
    }
  }

  // ------------------------------------------------------------------------- live blocks and tails

  /** Tails that shrinks have left: the address of a segment and its size. */
  type Tails = map<nat, nat>

  ghost predicate IsLive(B: Blocks, a: nat, size: nat) {
    a + HEADER in B && size == HEADER + |B[a + HEADER]|
  }

  ghost predicate IsTail(R: Tails, a: nat, size: nat) {
    a in R && R[a] == size
  }

  /** A segment is used exactly if it is a live block or a tail. */
  ghost predicate AccountedAt(segs: seq<Seg>, B: Blocks, R: Tails, a: nat, size: nat) {
    Used(segs, a, size) <==> IsLive(B, a, size) || IsTail(R, a, size)
  }

  /** The used segments are exactly the live blocks with their headers, and the tails; no block is a tail. */
  ghost predicate Accounted(segs: seq<Seg>, B: Blocks, R: Tails) {
    && (forall a, size {:trigger AccountedAt(segs, B, R, a, size)} :: AccountedAt(segs, B, R, a, size))
    && (forall a {:trigger a in R} :: a in R ==> a + HEADER !in B)
  }

  /** A shrink that splits leaves a tail behind the block; no other call changes the tails. */
  function NextTails(B: Blocks, op: Op, R: Tails): Tails
    requires OpOk(B, op)
  {
    if op.DoShrink? && CanSplit(HEADER + |B[op.p]|, op.n + HEADER) then R[op.p + op.n := |B[op.p]| - op.n] else R
  }

  lemma GrantAccounts(segs: seq<Seg>, B: Blocks, R: Tails, n: nat, repaired: bool, t: seq<Seg>, r: nat, bytes: seq<bv8>,
                      base: nat, end: nat)
    requires Tiled(segs, base, end) && Accounted(segs, B, R) && (t, r) == AllocChain(segs, n, repaired) && r != 0
    requires r !in B && |bytes| == n
    ensures Accounted(t, B[r := bytes], R)
  {
    var B' := B[r := bytes];
    AllocAdds(segs, n, repaired, base, end, 0);
    forall a, size ensures AccountedAt(t, B', R, a, size) {
      AllocUse(segs, n, repaired, t, r, a, size);
      AllocAdds(segs, n, repaired, base, end, size);
      assert AccountedAt(segs, B, R, a, size);
    }
    if r - HEADER in R {
      assert AccountedAt(segs, B, R, r - HEADER, R[r - HEADER]);
      AllocAdds(segs, n, repaired, base, end, R[r - HEADER]);
    }
  }

  lemma AllocAccounts(h: Heap, B: Blocks, R: Tails, n: nat, h': Heap, r: nat, repaired: bool, base: nat, end: nat)
    requires Sound(h, B, base, end) && Accounted(h.segs, B, R) && Step(h, DoAlloc(n), h', r, repaired)
    ensures Accounted(h'.segs, NextBlocks(B, DoAlloc(n), r, h'.mem), R)
  {
    if r != 0 {
      AllocStep(h, B, DoAlloc(n), h', r, repaired, base, end);
      GrantAccounts(h.segs, B, R, n, repaired, h'.segs, r, Slice(h'.mem, r, r + n), base, end);
    }
  }

  /** The used segments of `t` are those of `segs` but the one at `b`. */
  ghost predicate UsedBut(segs: seq<Seg>, t: seq<Seg>, b: nat) {
    forall a, size {:trigger Used(t, a, size)} :: Used(t, a, size) <==> Used(segs, a, size) && a != b
  }

  lemma FreeUses(m: Mem, segs: seq<Seg>, i: nat, r: Mem, t: seq<Seg>, base: nat, end: nat)
    requires Tiled(segs, base, end) && LinkInMemory(segs, i, |m|) && FreedOver(m, segs, i, r, t)
    requires BackInChain(segs, i) ==> Harmless(segs, i)
    ensures UsedBut(segs, t, segs[i].addr)
  {
    forall a, size ensures Used(t, a, size) <==> Used(segs, a, size) && a != segs[i].addr {
      FreeUse(m, segs, i, r, t, base, end, a, size);
    }
  }

  lemma FreeAccounts(segs: seq<Seg>, B: Blocks, R: Tails, p: nat, t: seq<Seg>)
    requires Accounted(segs, B, R) && HEADER <= p && p in B && UsedBut(segs, t, p - HEADER)
    ensures Accounted(t, B - {p}, R)
  {
    forall a, size ensures AccountedAt(t, B - {p}, R, a, size) {
      assert AccountedAt(segs, B, R, a, size);
    }
  }

  lemma FreeCase(h: Heap, B: Blocks, R: Tails, p: nat, h': Heap, r: nat, repaired: bool, base: nat, end: nat)
    requires Sound(h, B, base, end) && Accounted(h.segs, B, R) && p in B
    requires Step(h, DoFree(p), h', r, repaired) && FreeSafe(h, B, p)
    ensures Accounted(h'.segs, B - {p}, R)
  {
    var i := SegOfBlock(h, B, base, end, p);
    assert Held(h, B, p);
    FreeUses(h.mem, h.segs, i, h'.mem, h'.segs, base, end);
    FreeAccounts(h.segs, B, R, p, h'.segs);
  }

  lemma SplitAccounts(segs: seq<Seg>, B: Blocks, R: Tails, p: nat, n: nat, repaired: bool, base: nat, end: nat, i: nat)
    requires Tiled(segs, base, end) && Accounted(segs, B, R) && p in B && HEADER <= p && n <= |B[p]|
    requires i < |segs| && segs[i] == Seg(p - HEADER, HEADER + |B[p]|, false, segs[i].prev)
    requires CanSplit(HEADER + |B[p]|, n + HEADER)
    ensures Accounted(SplitWith(segs, i, n + HEADER, repaired), B[p := B[p][..n]], R[p + n := |B[p]| - n])
  {
    var t, B', R' := SplitWith(segs, i, n + HEADER, repaired), B[p := B[p][..n]], R[p + n := |B[p]| - n];
    forall a, size ensures AccountedAt(t, B', R', a, size) {
      ShrinkUse(segs, i, n + HEADER, repaired, base, end, a, size);
      if a == p + n { NoneInside(segs, i, base, end, a, size); }
      assert AccountedAt(segs, B, R, a, size);
    }
    var q := p + n + HEADER;
    if q in B {
      assert AccountedAt(segs, B, R, p + n, HEADER + |B[q]|);
      NoneInside(segs, i, base, end, p + n, HEADER + |B[q]|);
    }
  }

  /** Blocks of the same sizes at the same places account for the same segments. */
  lemma SameAccounts(segs: seq<Seg>, B: Blocks, B': Blocks, R: Tails)
    requires Accounted(segs, B, R) && B'.Keys == B.Keys && forall p :: p in B ==> |B'[p]| == |B[p]|
    ensures Accounted(segs, B', R)
  {
    forall a, size ensures AccountedAt(segs, B', R, a, size) {
      assert AccountedAt(segs, B, R, a, size);
    }
  }

  lemma ShrinkAccounts(h: Heap, B: Blocks, R: Tails, p: nat, n: nat, t: seq<Seg>, repaired: bool, base: nat, end: nat,
                       B': Blocks, R': Tails)
    requires Sound(h, B, base, end) && Accounted(h.segs, B, R) && p in B && n <= |B[p]|
    requires SegOf(h, p) < |h.segs| && h.segs[SegOf(h, p)].size >= n + HEADER
    requires t == ShrinkChain(h.segs, SegOf(h, p), n, repaired)
    requires B' == B[p := if CanSplit(HEADER + |B[p]|, n + HEADER) then B[p][..n] else B[p]]
    requires R' == if CanSplit(HEADER + |B[p]|, n + HEADER) then R[p + n := |B[p]| - n] else R
    ensures Accounted(t, B', R')
  {
    var i := SegOfBlock(h, B, base, end, p);
    assert Held(h, B, p);
    if CanSplit(HEADER + |B[p]|, n + HEADER) {
      SplitAccounts(h.segs, B, R, p, n, repaired, base, end, i);
    } else {
      SameAccounts(h.segs, B, B', R);
    }
  }

  lemma ShrinkCase(h: Heap, B: Blocks, R: Tails, p: nat, n: nat, h': Heap, r: nat, repaired: bool, base: nat, end: nat)
    requires Sound(h, B, base, end) && Accounted(h.segs, B, R) && p in B && n <= |B[p]|
    requires Step(h, DoShrink(p, n), h', r, repaired)
    ensures Accounted(h'.segs, NextBlocks(B, DoShrink(p, n), r, h'.mem), NextTails(B, DoShrink(p, n), R))
  {
    ShrinkAccounts(h, B, R, p, n, h'.segs, repaired, base, end, NextBlocks(B, DoShrink(p, n), r, h'.mem),
                   NextTails(B, DoShrink(p, n), R));
  }

  lemma StoreAccounts(h: Heap, B: Blocks, R: Tails, op: Op, h': Heap, r: nat, repaired: bool)
    requires Accounted(h.segs, B, R) && (op.DoCopy? || op.DoWrite?) && OpOk(B, op) && Step(h, op, h', r, repaired)
    ensures Accounted(h'.segs, NextBlocks(B, op, r, h'.mem), R)
  {
    SameAccounts(h.segs, B, NextBlocks(B, op, r, h'.mem), R);
  }

  /** Every safe call keeps the account: nothing is used that is neither live nor a tail, and none of these is lost. */
  lemma StepAccounts(h: Heap, B: Blocks, R: Tails, op: Op, h': Heap, r: nat, repaired: bool, base: nat, end: nat)
    requires Sound(h, B, base, end) && Accounted(h.segs, B, R) && OpOk(B, op)
    requires Step(h, op, h', r, repaired) && Safe(h, B, op)
    ensures Accounted(h'.segs, NextBlocks(B, op, r, h'.mem), NextTails(B, op, R))
  {
    match op {
      case DoAlloc(_) => AllocAccounts(h, B, R, op.n, h', r, repaired, base, end);
      case DoFree(p) => FreeCase(h, B, R, p, h', r, repaired, base, end);
      case DoShrink(p, n) => ShrinkCase(h, B, R, p, n, h', r, repaired, base, end);
      case DoCopy(_, _) => StoreAccounts(h, B, R, op, h', r, repaired);
      case DoWrite(_, _, _) => StoreAccounts(h, B, R, op, h', r, repaired);
    }
  }

  /** The tails that a run leaves. */
  ghost function LastTails(h: Heap, B: Blocks, events: seq<Event>, repaired: bool, R: Tails): Tails
    requires IsRun(h, B, events, repaired)
    decreases |events|
  {
    if events == [] then R
    else
      var e := events[0];
      LastTails(e.after, NextBlocks(B, e.op, e.result, e.after.mem), events[1..], repaired, NextTails(B, e.op, R))
  }

  /** In every run of safe calls the used segments are exactly the live blocks, with their headers, and the tails. */
  lemma {:induction false} RunAccounts(h: Heap, B: Blocks, R: Tails, events: seq<Event>, repaired: bool, base: nat,
                                       end: nat)
    requires Sound(h, B, base, end) && IsRun(h, B, events, repaired) && SafeRun(h, B, events, repaired)
    requires Accounted(h.segs, B, R)
    ensures Accounted(LastHeap(h, events).segs, LastBlocks(h, B, events, repaired),
                      LastTails(h, B, events, repaired, R))
    decreases |events|
  {
    if events != [] {
      var e := events[0];
      StepKeeps(h, B, e.op, e.after, e.result, repaired, base, end);
      StepAccounts(h, B, R, e.op, e.after, e.result, repaired, base, end);
      RunAccounts(e.after, NextBlocks(B, e.op, e.result, e.after.mem), NextTails(B, e.op, R), events[1..], repaired,
                  base, end);
      assert LastHeap(h, events) == LastHeap(e.after, events[1..]);
    }
  }

  /** The tail that a shrink leaves is a new one. */
  lemma NewTail(h: Heap, B: Blocks, R: Tails, p: nat, n: nat, base: nat, end: nat)
    requires Sound(h, B, base, end) && Accounted(h.segs, B, R) && p in B && n < |B[p]|
    ensures p + n !in R
  {
    var i := SegOfBlock(h, B, base, end, p);
    assert Held(h, B, p);
    if p + n in R {
      assert AccountedAt(h.segs, B, R, p + n, R[p + n]);
      NoneInside(h.segs, i, base, end, p + n, R[p + n]);
    }
  }

  lemma TailKept(h: Heap, B: Blocks, R: Tails, op: Op, base: nat, end: nat, a: nat)
    requires Sound(h, B, base, end) && Accounted(h.segs, B, R) && OpOk(B, op) && a in R
    ensures a in NextTails(B, op, R) && NextTails(B, op, R)[a] == R[a]
  {
    if op.DoShrink? && op.n < |B[op.p]| { NewTail(h, B, R, op.p, op.n, base, end); }
  }

  /** A tail is never given back: in no run of safe calls does it become free again. */
  lemma {:induction false} TailsStay(h: Heap, B: Blocks, R: Tails, events: seq<Event>, repaired: bool, base: nat,
                                     end: nat, a: nat)
    requires Sound(h, B, base, end) && IsRun(h, B, events, repaired) && SafeRun(h, B, events, repaired)
    requires Accounted(h.segs, B, R) && a in R
    ensures Used(LastHeap(h, events).segs, a, R[a])
    decreases |events|
  {
    if events == [] {
      assert AccountedAt(h.segs, B, R, a, R[a]);
    } else {
      var e := events[0];
      StepKeeps(h, B, e.op, e.after, e.result, repaired, base, end);
      StepAccounts(h, B, R, e.op, e.after, e.result, repaired, base, end);
      TailKept(h, B, R, e.op, base, end, a);
      TailsStay(e.after, NextBlocks(B, e.op, e.result, e.after.mem), NextTails(B, e.op, R), events[1..], repaired,
                base, end, a);
      assert LastHeap(h, events) == LastHeap(e.after, events[1..]);
    }
  }

  /** A new heap has nothing in use. */
  lemma NewHeapAccounts(base: nat, size: nat)
    ensures Accounted([Seg(base, size, true, 0)], map[], map[])
  {
    forall a, n ensures AccountedAt([Seg(base, size, true, 0)], map[], map[], a, n) {}
  }

  // ------------------------------------------------------------------------- free memory

  /** The bytes of all free segments. */
  function FreeBytes(segs: seq<Seg>): nat {
    if segs == [] then 0
    else FreeBytes(segs[..|segs| - 1]) + if segs[|segs| - 1].free then segs[|segs| - 1].size else 0
  }

  lemma {:induction false} FreeConcat(s: seq<Seg>, t: seq<Seg>)
    ensures FreeBytes(s + t) == FreeBytes(s) + FreeBytes(t)
    decreases |t|
  {
    if t == [] {
      assert s + t == s;
    } else {
      assert (s + t)[..|s + t| - 1] == s + t[..|t| - 1];
      FreeConcat(s, t[..|t| - 1]);
    }
  }

  lemma {:induction false} FreeAlike(s: seq<Seg>, t: seq<Seg>)
    requires Alike(s, t)
    ensures FreeBytes(s) == FreeBytes(t)
    decreases |s|
  {
    if s != [] { FreeAlike(s[..|s| - 1], t[..|t| - 1]); }
  }

  lemma FreeOne(seg: Seg)
    ensures FreeBytes([seg]) == if seg.free then seg.size else 0
  {
    assert [seg][..0] == [];
  }

  /** The free bytes of a chain with `x` in the middle. */
  lemma FreeAround(s: seq<Seg>, x: seq<Seg>, t: seq<Seg>)
    ensures FreeBytes(s + x + t) == FreeBytes(s) + FreeBytes(x) + FreeBytes(t)
  {
    FreeConcat(s, x);
    FreeConcat(s + x, t);
  }

  lemma FreeTwo(a: Seg, b: Seg)
    ensures FreeBytes([a, b]) == (if a.free then a.size else 0) + if b.free then b.size else 0
  {
    FreeOne(a);
    FreeOne(b);
    FreeConcat([a], [b]);
    assert [a] + [b] == [a, b];
  }

  lemma FlagFree(segs: seq<Seg>, i: nat, x: Seg)
    requires i < |segs|
    ensures FreeBytes(segs[i := x]) + (if segs[i].free then segs[i].size else 0) ==
            FreeBytes(segs) + if x.free then x.size else 0
  {
    FreeOne(x);
    FreeOne(segs[i]);
    FreeAround(segs[..i], [x], segs[i + 1..]);
    FreeAround(segs[..i], [segs[i]], segs[i + 1..]);
    assert segs == segs[..i] + [segs[i]] + segs[i + 1..];
    assert segs[i := x] == segs[..i] + [x] + segs[i + 1..];
  }

  ghost predicate Alike(s: seq<Seg>, t: seq<Seg>) {
    |s| == |t| && forall k :: 0 <= k < |s| ==> s[k].free == t[k].free && s[k].size == t[k].size
  }

  /** A part of the chain is replaced, and back-links behind it may change. */
  lemma Spliced(a: seq<Seg>, x: seq<Seg>, b: seq<Seg>, y: seq<Seg>, c: seq<Seg>)
    requires Alike(b, c)
    ensures FreeBytes(a + x + b) + FreeBytes(y) == FreeBytes(a + y + c) + FreeBytes(x)
  {
    FreeAround(a, x, b);
    FreeAround(a, y, c);
    FreeAlike(b, c);
  }

  lemma AbsorbParts(segs: seq<Seg>, j: nat, t: seq<Seg>)
    requires j + 1 < |segs| && t == Absorb(segs, j, j + 1)
    ensures segs == segs[..j] + [segs[j], segs[j + 1]] + segs[j + 2..]
    ensures t == segs[..j] + [t[j]] + t[j + 1..] && Alike(segs[j + 2..], t[j + 1..])
  {
  }

  lemma AbsorbFree(segs: seq<Seg>, j: nat)
    requires j + 1 < |segs| && segs[j].free && segs[j + 1].free
    ensures FreeBytes(Absorb(segs, j, j + 1)) == FreeBytes(segs)
  {
    var t := Absorb(segs, j, j + 1);
    AbsorbParts(segs, j, t);
    Spliced(segs[..j], [segs[j], segs[j + 1]], segs[j + 2..], [t[j]], t[j + 1..]);
    FreeTwo(segs[j], segs[j + 1]);
    FreeOne(t[j]);
  }

  lemma SplitParts(segs: seq<Seg>, i: nat, n: nat, repaired: bool, t: seq<Seg>)
    requires i < |segs| && n <= segs[i].size && t == SplitWith(segs, i, n, repaired)
    ensures segs == segs[..i] + [segs[i]] + segs[i + 1..]
    ensures t == segs[..i] + [t[i], t[i + 1]] + t[i + 2..] && Alike(segs[i + 1..], t[i + 2..])
  {
  }

  lemma SplitFree(segs: seq<Seg>, i: nat, n: nat, repaired: bool)
    requires i < |segs| && n <= segs[i].size
    ensures FreeBytes(SplitWith(segs, i, n, repaired)) == FreeBytes(segs)
  {
    var t := SplitWith(segs, i, n, repaired);
    SplitParts(segs, i, n, repaired, t);
    Spliced(segs[..i], [segs[i]], segs[i + 1..], [t[i], t[i + 1]], t[i + 2..]);
    FreeOne(segs[i]);
    FreeTwo(t[i], t[i + 1]);
  }

  lemma AllocTakes(segs: seq<Seg>, n: nat, repaired: bool, t: seq<Seg>, r: nat)
    requires (t, r) == AllocChain(segs, n, repaired)
    ensures FreeBytes(t) + (if r == 0 then 0 else n + HEADER) == FreeBytes(segs)
  {
    if r != 0 {
      var i := FirstFit(segs, 0, n + HEADER + HEADER);
      var split := SplitWith(segs, i, n + HEADER, repaired);
      SplitFree(segs, i, n + HEADER, repaired);
      FlagFree(split, i, split[i].(free := false));
    }
  }

  /** A free that keeps the tiling gives back exactly the size of the segment. */
  lemma FreeGives(m: Mem, segs: seq<Seg>, i: nat, r: Mem, t: seq<Seg>, base: nat, end: nat)
    requires Tiled(segs, base, end) && LinkInMemory(segs, i, |m|) && FreedOver(m, segs, i, r, t) && !segs[i].free
    requires BackInChain(segs, i) ==> Harmless(segs, i)
    ensures FreeBytes(t) == FreeBytes(segs) + segs[i].size
  {
    FreedChainIs(m, segs, i, r, t);
    FreedGives(segs, i, FreedBit(m, segs, i), base, end);
  }

  lemma FreedGives(segs: seq<Seg>, i: nat, bit: bool, base: nat, end: nat)
    requires Tiled(segs, base, end) && i < |segs| && !segs[i].free && (BackInChain(segs, i) ==> Harmless(segs, i))
    ensures FreeBytes(FreedChain(segs, i, bit)) == FreeBytes(segs) + segs[i].size
  {
    JoinedGives(segs, i);
    if BackInChain(segs, i) {
      JoinedPrev(segs, i, base, end);
      assert Joined(segs, i)[i].free;
      if segs[i].prev != 0 && segs[IndexOf(segs, segs[i].prev, 0)].free { AbsorbFree(Joined(segs, i), i - 1); }
    } else {
      FreeAlike(FreedChain(segs, i, bit), Joined(segs, i));
    }
  }

  lemma JoinedGives(segs: seq<Seg>, i: nat)
    requires i < |segs| && !segs[i].free
    ensures FreeBytes(Joined(segs, i)) == FreeBytes(segs) + segs[i].size
  {
    var freed := segs[i := segs[i].(free := true)];
    FlagFree(segs, i, segs[i].(free := true));
    if i + 1 < |freed| && freed[i + 1].free { AbsorbFree(freed, i); }
  }

  /** What a call takes from free memory: a header and the request, or as much back. */
  function Cost(B: Blocks, op: Op, r: nat): int
    requires OpOk(B, op)
  {
    match op
    case DoAlloc(n) => if r == 0 then 0 else HEADER + n
    case DoFree(p) => -(HEADER + |B[p]|)
    case _ => 0
  }

  /** Every safe call takes just that; a shrink gives nothing back. */
  lemma StepCosts(h: Heap, B: Blocks, op: Op, h': Heap, r: nat, repaired: bool, base: nat, end: nat)
    requires Sound(h, B, base, end) && OpOk(B, op) && Step(h, op, h', r, repaired) && Safe(h, B, op)
    ensures FreeBytes(h'.segs) == FreeBytes(h.segs) - Cost(B, op, r)
  {
    match op {
      case DoAlloc(n) => AllocTakes(h.segs, n, repaired, h'.segs, r);
      case DoFree(p) =>
        var i := SegOfBlock(h, B, base, end, p);
        FreeGives(h.mem, h.segs, i, h'.mem, h'.segs, base, end);
      case DoShrink(p, n) =>
        var i := SegOfBlock(h, B, base, end, p);
        if CanSplit(h.segs[i].size, n + HEADER) { SplitFree(h.segs, i, n + HEADER, repaired); }
      case DoCopy(_, _) =>
      case DoWrite(_, _, _) =>
    }
  }

  ghost function RunCost(h: Heap, B: Blocks, events: seq<Event>, repaired: bool): int
    requires IsRun(h, B, events, repaired)
    decreases |events|
  {
    if events == [] then 0
    else
      var e := events[0];
      Cost(B, e.op, e.result) + RunCost(e.after, NextBlocks(B, e.op, e.result, e.after.mem), events[1..], repaired)
  }

  /** Free memory after any run of safe calls: what was granted less what was freed is gone, and nothing else. */
  lemma {:induction false} RunCosts(h: Heap, B: Blocks, events: seq<Event>, repaired: bool, base: nat, end: nat)
    requires Sound(h, B, base, end) && IsRun(h, B, events, repaired) && SafeRun(h, B, events, repaired)
    ensures FreeBytes(LastHeap(h, events).segs) == FreeBytes(h.segs) - RunCost(h, B, events, repaired)
    decreases |events|
  {
    if events != [] {
      var e := events[0];
      StepKeeps(h, B, e.op, e.after, e.result, repaired, base, end);
      StepCosts(h, B, e.op, e.after, e.result, repaired, base, end);
      RunCosts(e.after, NextBlocks(B, e.op, e.result, e.after.mem), events[1..], repaired, base, end);
      assert LastHeap(h, events) == LastHeap(e.after, events[1..]);
    }
  }

  // ------------------------------------------------------------------------- every byte of a freed block is free

  ghost predicate InFree(segs: seq<Seg>, x: nat) {
    exists k :: 0 <= k < |segs| && segs[k].free && segs[k].addr <= x < segs[k].addr + segs[k].size
  }

  /** Every byte of the heap is in some segment. */
  lemma {:induction false} TiledCovers(segs: seq<Seg>, base: nat, end: nat, x: nat, k: nat) returns (j: nat)
    requires Tiled(segs, base, end) && k < |segs| && base <= x < segs[k].addr + segs[k].size
    ensures j < |segs| && segs[j].addr <= x < segs[j].addr + segs[j].size
    decreases k
  {
    if segs[k].addr <= x {
      j := k;
    } else {
      assert k > 0 && Meets(segs, k - 1, end);
      j := TiledCovers(segs, base, end, x, k - 1);
    }
  }

  lemma FreedBytesFree(m: Mem, segs: seq<Seg>, i: nat, r: Mem, t: seq<Seg>, base: nat, end: nat, x: nat)
    requires Tiled(segs, base, end) && LinkInMemory(segs, i, |m|) && FreedOver(m, segs, i, r, t)
    requires BackInChain(segs, i) ==> Harmless(segs, i)
    requires segs[i].addr <= x < segs[i].addr + segs[i].size
    ensures InFree(t, x)
  {
    FreedChainIs(m, segs, i, r, t);
    FreeTiledExactly(segs, i, FreedBit(m, segs, i), base, end);
    TiledInside(segs, base, end, i);
    assert Meets(t, |t| - 1, end);
    var j := TiledCovers(t, base, end, x, |t| - 1);
    if !t[j].free {
      assert Used(t, t[j].addr, t[j].size);
      FreeUse(m, segs, i, r, t, base, end, t[j].addr, t[j].size);
      var k :| 0 <= k < |segs| && segs[k].addr == t[j].addr && segs[k].size == t[j].size && !segs[k].free;
      if k < i { TiledOrdered(segs, base, end, k, i); } else if i < k { TiledOrdered(segs, base, end, i, k); }
      assert false;
    }
  }
}
