/**
 The page frame allocator: the bitmap, the byte counters and the hint where searches start.
 Frames are named by their number; addresses are frame numbers times the page size.
 */
module FrameAllocator {
  import opened FrameBitmap
  import opened PageTables

  /** The allocator's state; `bits[i]` says that frame `i` is used, `total` counts frames. */
  datatype Frames = Frames(bits: seq<bool>, total: nat, hint: nat, freeMemory: int, usedMemory: int)

  ghost predicate Valid(s: Frames) {
    s.total < |s.bits|
  }

  // ------------------------------------------------------------------------- searching

  /** The lowest free frame in `from..total`, or a frame at or past `total` if there is none. */
  function FirstFree(bits: seq<bool>, from: nat, total: nat): (k: nat)
    requires total <= |bits|
    ensures from <= k && (from <= total ==> k <= total) && (from >= total ==> k == from)
    ensures k < total ==> !bits[k]
    ensures forall j :: from <= j < k && j < total ==> bits[j]
    decreases total - from
  {
    if from < total && bits[from] then FirstFree(bits, from + 1, total) else from
  }

  ghost predicate AllFree(bits: seq<bool>, start: nat, n: nat) {
    start + n <= |bits| && forall j :: start <= j < start + n ==> !bits[j]
  }

  /** The lowest start in `from..total` of `n` free frames, or a frame at or past `total`. */
  ghost function FirstRun(bits: seq<bool>, from: nat, total: nat, n: nat): (k: nat)
    ensures from <= k && (from <= total ==> k <= total)
    ensures k < total ==> AllFree(bits, k, n)
    ensures forall j :: from <= j < k && j < total ==> !AllFree(bits, j, n)
    decreases total - from
  {
    if from < total && !AllFree(bits, from, n) then FirstRun(bits, from + 1, total, n) else from
  }

  // ------------------------------------------------------------------------- operations

  function LockFrame(s: Frames, i: nat): Frames
    requires i < |s.bits|
  {
    if s.bits[i] then s
    else s.(bits := s.bits[i := true], freeMemory := s.freeMemory - PAGE_SIZE, usedMemory := s.usedMemory + PAGE_SIZE)
  }

  function FreeFrame(s: Frames, i: nat): Frames
    requires i < |s.bits|
  {
    if !s.bits[i] then s
    else s.(bits := s.bits[i := false], freeMemory := s.freeMemory + PAGE_SIZE, usedMemory := s.usedMemory - PAGE_SIZE)
  }

  /** Locks `n` frames from `start` on. */
  function LockRange(s: Frames, start: nat, n: nat): (r: Frames)
    requires start + n <= |s.bits|
    ensures |r.bits| == |s.bits| && r.total == s.total && r.hint == s.hint
    ensures forall j :: 0 <= j < |s.bits| ==> r.bits[j] == (s.bits[j] || start <= j < start + n)
    decreases n
  {
    if n == 0 then s else LockFrame(LockRange(s, start, n - 1), start + n - 1)
  }

  function Request(s: Frames): (Frames, Option<nat>)
    requires Valid(s)
  {
    var k := FirstFree(s.bits, s.hint, s.total);
    if k < s.total then (LockFrame(s, k).(hint := k + 1), Some(k)) else (s, None)
  }

  ghost function RequestRun(s: Frames, n: nat): (Frames, Option<nat>)
    requires Valid(s)
  {
    var k := FirstRun(s.bits, s.hint, s.total, n);
    if k >= s.total then (s, None)
    else
      var locked := LockRange(s, k, n);
      var h := FirstFree(locked.bits, s.hint, s.total);
      (if h < s.total then locked.(hint := h) else locked, Some(k))
  }

  /** What a run request does, without reference to its searches. */
  lemma RequestRunMeaning(s: Frames, n: nat)
    requires Valid(s) && s.bits[s.total] && n >= 1
    ensures var (t, r) := RequestRun(s, n);
            && (r == None <==> forall k :: s.hint <= k < s.total ==> !AllFree(s.bits, k, n))
            && (r == None ==> t == s)
            && (r.Some? ==>
                  && s.hint <= r.value && r.value + n <= s.total && AllFree(s.bits, r.value, n)
                  && (forall k :: s.hint <= k < r.value ==> !AllFree(s.bits, k, n))
                  && |t.bits| == |s.bits|
                  && (forall j :: 0 <= j < |s.bits| ==> t.bits[j] == (s.bits[j] || r.value <= j < r.value + n))
                  && (forall j :: s.hint <= j < s.total && !t.bits[j] ==> s.hint <= t.hint <= j && !t.bits[t.hint]))
            && ((forall j :: s.hint <= j < s.total ==> t.bits[j]) ==> t.hint == s.hint)
  {
    var k := FirstRun(s.bits, s.hint, s.total, n);
    assert k < s.total ==> k + n <= s.total;
  }

  /** What freeing a frame does, for every frame: its bit is clear, and one page moves if it was set. */
  lemma FreeMeaning(s: Frames, i: nat)
    requires i < |s.bits|
    ensures var t, moved := FreeFrame(s, i), if s.bits[i] then 4096 else 0;
            && t.bits == s.bits[i := false] && t.total == s.total && t.hint == s.hint
            && t.freeMemory == s.freeMemory + moved && t.usedMemory == s.usedMemory - moved
  {
    if !s.bits[i] { assert s.bits[i := false] == s.bits; }
  }

  /** What locking a frame does, for every frame: its bit is set, and one page moves if it was clear. */
  lemma LockMeaning(s: Frames, i: nat)
    requires i < |s.bits|
    ensures var t, moved := LockFrame(s, i), if s.bits[i] then 0 else 4096;
            && t.bits == s.bits[i := true] && t.total == s.total && t.hint == s.hint
            && t.freeMemory == s.freeMemory - moved && t.usedMemory == s.usedMemory + moved
  {
    if s.bits[i] { assert s.bits[i := true] == s.bits; }
  }

  /** What a request does: the lowest free frame at or above the hint becomes used, and the hint moves behind it. */
  lemma RequestMeaning(s: Frames)
    requires Valid(s)
    ensures var (t, r) := Request(s);
            && (r == None <==> forall k :: s.hint <= k < s.total ==> s.bits[k]) && (r == None ==> t == s)
            && (r.Some? ==>
                  && s.hint <= r.value < s.total && !s.bits[r.value]
                  && (forall k :: s.hint <= k < r.value ==> s.bits[k])
                  && t == Frames(s.bits[r.value := true], s.total, r.value + 1,
                                 s.freeMemory - 4096, s.usedMemory + 4096))
  {
  }

  // ------------------------------------------------------------------------- conservation

  ghost function CountFree(bits: seq<bool>): nat {
    if bits == [] then 0 else CountFree(bits[..|bits| - 1]) + if bits[|bits| - 1] then 0 else 1
  }

  lemma {:induction false} CountUpdate(bits: seq<bool>, i: nat, used: bool)
    requires i < |bits| && bits[i] != used
    ensures CountFree(bits[i := used]) == CountFree(bits) + if used then -1 else 1
  {
    var last := |bits| - 1;
    if i == last {
      assert bits[i := used][..last] == bits[..last];
    } else {
      CountUpdate(bits[..last], i, used);
      assert bits[i := used][..last] == bits[..last][i := used];
    }
  }

  /** The free counter is the size of the free frames, and free and used add up. */
  ghost predicate Balanced(s: Frames, totalMemory: int) {
    s.freeMemory == PAGE_SIZE * CountFree(s.bits) && s.freeMemory + s.usedMemory == totalMemory
  }

  lemma LockBalanced(s: Frames, i: nat, m: int)
    requires i < |s.bits| && Balanced(s, m)
    ensures Balanced(LockFrame(s, i), m)
  {
    if !s.bits[i] { CountUpdate(s.bits, i, true); }
  }

  lemma FreeBalanced(s: Frames, i: nat, m: int)
    requires i < |s.bits| && Balanced(s, m)
    ensures Balanced(FreeFrame(s, i), m)
  {
    if s.bits[i] { CountUpdate(s.bits, i, false); }
  }

  lemma {:induction false} LockRangeBalanced(s: Frames, start: nat, n: nat, m: int)
    requires start + n <= |s.bits| && Balanced(s, m)
    ensures Balanced(LockRange(s, start, n), m)
    decreases n
  {
    if n > 0 {
      LockRangeBalanced(s, start, n - 1, m);
      LockBalanced(LockRange(s, start, n - 1), start + n - 1, m);
    }
  }

  /** What the free counter says beyond the free frames. */
  ghost function Excess(s: Frames): int {
    s.freeMemory - PAGE_SIZE * CountFree(s.bits)
  }

  lemma LockKeepsExcess(s: Frames, i: nat)
    requires i < |s.bits|
    ensures Excess(LockFrame(s, i)) == Excess(s)
    ensures LockFrame(s, i).freeMemory + LockFrame(s, i).usedMemory == s.freeMemory + s.usedMemory
  {
    if !s.bits[i] { CountUpdate(s.bits, i, true); }
  }

  /** Locking a range moves as many pages between the counters as it makes used. */
  lemma {:induction false} LockRangeKeepsExcess(s: Frames, start: nat, n: nat, t: Frames)
    requires start + n <= |s.bits| && t == LockRange(s, start, n)
    ensures Excess(t) == Excess(s) && t.freeMemory + t.usedMemory == s.freeMemory + s.usedMemory
    decreases n
  {
    if n > 0 {
      var before := LockRange(s, start, n - 1);
      LockRangeKeepsExcess(s, start, n - 1, before);
      LockKeepsExcess(before, start + n - 1);
    }
  }

  // ------------------------------------------------------------------------- runs

  datatype FrameOp = DoLock(frame: nat) | DoFree(frame: nat) | DoRequest | DoRequestRun(n: nat)

  ghost predicate InRange(s: Frames, op: FrameOp) {
    (op.DoLock? || op.DoFree?) ==> op.frame < |s.bits|
  }

  /** `count` frames from `start` on; no frames for a call that grants nothing. */
  datatype Grant = Grant(start: nat, count: nat) {
    ghost predicate Has(k: int) { start <= k < start + count }
  }

  /** The state after one call and the frames it granted. */
  ghost function Do(s: Frames, op: FrameOp): (r: (Frames, Grant))
    requires Valid(s) && InRange(s, op)
    ensures Valid(r.0) && |r.0.bits| == |s.bits| && r.0.total == s.total
  {
    match op
    case DoLock(i) => (LockFrame(s, i), Grant(0, 0))
    case DoFree(i) => (FreeFrame(s, i), Grant(0, 0))
    case DoRequest => (Request(s).0, if Request(s).1.Some? then Grant(Request(s).1.value, 1) else Grant(0, 0))
    case DoRequestRun(n) =>
      var r := RequestRun(s, n);
      (r.0, if r.1.Some? then Grant(r.1.value, n) else Grant(0, 0))
  }

  ghost predicate AllInRange(s: Frames, ops: seq<FrameOp>) {
    forall i :: 0 <= i < |ops| ==> InRange(s, ops[i])
  }

  ghost function Run(s: Frames, ops: seq<FrameOp>): (r: Frames)
    requires Valid(s) && AllInRange(s, ops)
    ensures Valid(r) && |r.bits| == |s.bits| && r.total == s.total
    decreases |ops|
  {
    if ops == [] then s else Do(Run(s, ops[..|ops| - 1]), ops[|ops| - 1]).0
  }

  /** A grant: its frames were all free, lie at or above the hint and below the end, and become used. */
  lemma GrantsWereFree(s: Frames, op: FrameOp)
    requires Valid(s) && InRange(s, op) && s.bits[s.total]
    ensures forall k :: Do(s, op).1.Has(k) ==> s.hint <= k < s.total && !s.bits[k] && Do(s, op).0.bits[k]
    ensures forall k :: 0 <= k < |s.bits| && Do(s, op).0.bits[k] && !s.bits[k] ==> Do(s, op).1.Has(k) || op == DoLock(k)
    ensures s.hint <= Do(s, op).0.hint
  {
  }

  lemma {:induction false} RunBalanced(s: Frames, ops: seq<FrameOp>, m: int)
    requires Valid(s) && AllInRange(s, ops) && Balanced(s, m)
    ensures Balanced(Run(s, ops), m)
    decreases |ops|
  {
    if ops != [] {
      var t, op := Run(s, ops[..|ops| - 1]), ops[|ops| - 1];
      RunBalanced(s, ops[..|ops| - 1], m);
      match op {
        case DoLock(i) => LockBalanced(t, i, m);
        case DoFree(i) => FreeBalanced(t, i, m);
        case DoRequest =>
          var k := FirstFree(t.bits, t.hint, t.total);
          if k < t.total { LockBalanced(t, k, m); }
        case DoRequestRun(n) =>
          var k := FirstRun(t.bits, t.hint, t.total, n);
          if k < t.total { LockRangeBalanced(t, k, n, m); }
      }
    }
  }

  predicate KeepsEnd(s: Frames, op: FrameOp) {
    op != DoFree(s.total)
  }

  ghost predicate AllKeepEnd(s: Frames, ops: seq<FrameOp>) {
    forall i :: 0 <= i < |ops| ==> KeepsEnd(s, ops[i])
  }

  /** The hint only moves up, so a frame freed below it is not granted again by any later call. */
  lemma {:induction false} BelowHintNeverGranted(s: Frames, ops: seq<FrameOp>, op: FrameOp)
    requires Valid(s) && AllInRange(s, ops) && InRange(s, op) && s.bits[s.total] && AllKeepEnd(s, ops)
    ensures var t := Run(s, ops);
            t.bits[t.total] && s.hint <= t.hint && forall k :: Do(t, op).1.Has(k) ==> s.hint <= k
    decreases |ops|
  {
    if ops != [] {
      var init, last := ops[..|ops| - 1], ops[|ops| - 1];
      BelowHintNeverGranted(s, init, last);
      GrantsWereFree(Run(s, init), last);
    }
    GrantsWereFree(Run(s, ops), op);
  }

  /** Every free frame below the end is at or above the hint. */
  ghost predicate HintBounds(s: Frames) {
    s.total <= |s.bits| && forall j :: 0 <= j < s.total && !s.bits[j] ==> s.hint <= j
  }

  lemma HintBoundsStep(s: Frames, op: FrameOp)
    requires Valid(s) && InRange(s, op) && HintBounds(s) && !op.DoFree?
    ensures HintBounds(Do(s, op).0)
  {
  }

  /** The free of a frame at or above the hint, past the end, or free already. */
  predicate HarmlessFree(s: Frames, i: nat)
    requires i < |s.bits|
  {
    i >= s.hint || i >= s.total || !s.bits[i]
  }

  /** A free keeps the hint a bound exactly if it is harmless. */
  lemma FreeKeepsHint(s: Frames, i: nat)
    requires Valid(s) && i < |s.bits| && HintBounds(s)
    ensures HintBounds(FreeFrame(s, i)) <==> HarmlessFree(s, i)
  {
    if !HarmlessFree(s, i) { assert !FreeFrame(s, i).bits[i]; }
  }

  /** Every free of the run is harmless at its moment. */
  ghost predicate FreesHarmless(s: Frames, ops: seq<FrameOp>)
    requires Valid(s) && AllInRange(s, ops)
    decreases |ops|
  {
    ops != [] ==>
      var init, last := ops[..|ops| - 1], ops[|ops| - 1];
      FreesHarmless(s, init) && (last.DoFree? ==> HarmlessFree(Run(s, init), last.frame))
  }

  /**
   As long as no frame below the hint is freed, the hint bounds the free frames, and a request fails only if none is
   left.
   */
  lemma {:induction false} RequestFailsOnlyWhenFull(s: Frames, ops: seq<FrameOp>)
    requires Valid(s) && AllInRange(s, ops) && HintBounds(s) && FreesHarmless(s, ops)
    ensures HintBounds(Run(s, ops))
    ensures Request(Run(s, ops)).1 == None <==> forall j :: 0 <= j < s.total ==> Run(s, ops).bits[j]
    decreases |ops|
  {
    if ops != [] {
      var init, last := ops[..|ops| - 1], ops[|ops| - 1];
      RequestFailsOnlyWhenFull(s, init);
      if last.DoFree? {
        FreeKeepsHint(Run(s, init), last.frame);
      } else {
        HintBoundsStep(Run(s, init), last);
      }
    }
    assert HintBounds(Run(s, ops));
  }

  /**
   The first free that is not harmless is lost: its frame is free from then on unless it is locked, yet no later call
   grants it, and once the frames above the hint are used a request fails.
   */
  lemma HarmfulFreeIsLost(s: Frames, i: nat, ops: seq<FrameOp>, op: FrameOp)
    requires Valid(s) && s.bits[s.total] && i < |s.bits| && !HarmlessFree(s, i)
    requires AllInRange(s, ops) && InRange(s, op) && AllKeepEnd(s, ops)
    ensures var t := FreeFrame(s, i);
            && !t.bits[i] && i < t.total && !Do(Run(t, ops), op).1.Has(i)
            && ((forall k :: s.hint <= k < s.total ==> s.bits[k]) ==> Request(t).1 == None)
  {
    BelowHintNeverGranted(FreeFrame(s, i), ops, op);
  }

  // ------------------------------------------------------- the free frames as a supply of tables

  /** The free frames at or above the hint, in the order in which requests grant them. */
  ghost function FreeList(bits: seq<bool>, from: nat, total: nat): seq<nat>
    requires total <= |bits|
    decreases total - from
  {
    if from >= total then []
    else if bits[from] then FreeList(bits, from + 1, total)
    else [from] + FreeList(bits, from + 1, total)
  }

  ghost predicate FreeAscending(l: seq<nat>, bits: seq<bool>, from: nat, total: nat)
    requires total <= |bits|
  {
    && (forall i :: 0 <= i < |l| ==> from <= l[i] < total && !bits[l[i]])
    && (forall i, j :: 0 <= i < j < |l| ==> l[i] < l[j])
  }

  lemma {:induction false} FreeListSound(bits: seq<bool>, from: nat, total: nat)
    requires total <= |bits|
    ensures FreeAscending(FreeList(bits, from, total), bits, from, total)
    decreases total - from
  {
    if from < total {
      FreeListSound(bits, from + 1, total);
      assert FreeAscending(FreeList(bits, from + 1, total), bits, from, total);
    }
  }

  /** The list misses no free frame. */
  lemma {:induction false} FreeListComplete(bits: seq<bool>, from: nat, total: nat, k: nat)
    requires total <= |bits| && from <= k < total && !bits[k]
    ensures k in FreeList(bits, from, total)
    decreases total - from
  {
    if from < k { FreeListComplete(bits, from + 1, total, k); }
  }

  ghost function Supply(s: Frames): seq<nat>
    requires Valid(s)
  {
    FreeList(s.bits, s.hint, s.total)
  }

  lemma {:induction false} FreeListSkips(bits: seq<bool>, from: nat, total: nat)
    requires total <= |bits|
    ensures var k := FirstFree(bits, from, total);
            FreeList(bits, from, total) == if k < total then [k] + FreeList(bits, k + 1, total) else []
    decreases total - from
  {
    if from < total && bits[from] { FreeListSkips(bits, from + 1, total); }
  }

  lemma {:induction false} FreeListSame(bits: seq<bool>, bits': seq<bool>, from: nat, total: nat)
    requires total <= |bits| && total <= |bits'|
    requires forall j :: from <= j < total ==> bits[j] == bits'[j]
    ensures FreeList(bits, from, total) == FreeList(bits', from, total)
    decreases total - from
  {
    if from < total { FreeListSame(bits, bits', from + 1, total); }
  }

  /** A request takes the head of the supply and leaves its tail. */
  lemma RequestPops(s: Frames)
    requires Valid(s)
    ensures var (s', r) := Request(s);
            if Supply(s) == [] then r == None && s' == s
            else r == Some(Supply(s)[0]) && Valid(s') && Supply(s') == Supply(s)[1..]
  {
    FreeListSkips(s.bits, s.hint, s.total);
    var k := FirstFree(s.bits, s.hint, s.total);
    if k < s.total {
      FreeListSame(s.bits, Request(s).0.bits, k + 1, s.total);
    }
  }

  ghost function AllRequests(n: nat): seq<FrameOp> {
    seq(n, i => DoRequest)
  }

  /** Request after request grants the supply, frame by frame. */
  lemma {:induction false} RequestsGrant(s: Frames, n: nat)
    requires Valid(s) && n < |Supply(s)|
    ensures Supply(Run(s, AllRequests(n))) == Supply(s)[n..]
    ensures Do(Run(s, AllRequests(n)), DoRequest).1 == Grant(Supply(s)[n], 1)
    decreases n
  {
    if n > 0 {
      RequestsGrant(s, n - 1);
      assert AllRequests(n)[..n - 1] == AllRequests(n - 1);
      RequestPops(Run(s, AllRequests(n - 1)));
    }
    RequestPops(Run(s, AllRequests(n)));
  }

  lemma {:induction false} FreeListSplit(bits: seq<bool>, from: nat, k: nat, total: nat)
    requires from <= k <= total <= |bits|
    ensures FreeList(bits, from, total) == FreeList(bits, from, k) + FreeList(bits, k, total)
    decreases k - from
  {
    if from < k { FreeListSplit(bits, from + 1, k, total); }
  }

  /** A frame freed at or above the hint comes back: as many requests as frames were free before it, and one more. */
  lemma FreedIsGranted(s: Frames, i: nat)
    requires Valid(s) && s.hint <= i < s.total && s.bits[i]
    ensures var t, n := FreeFrame(s, i), |FreeList(s.bits, s.hint, i)|;
            && n < |Supply(t)| && Supply(t)[n] == i && |Supply(t)| == |Supply(s)| + 1
            && Do(Run(t, AllRequests(n)), DoRequest).1 == Grant(i, 1)
  {
    var t := FreeFrame(s, i);
    FreeListSplit(s.bits, s.hint, i, s.total);
    FreeListSplit(t.bits, s.hint, i, s.total);
    FreeListSame(s.bits, t.bits, s.hint, i);
    FreeListSame(s.bits, t.bits, i + 1, s.total);
    RequestsGrant(t, |FreeList(s.bits, s.hint, i)|);
  }

  // ------------------------------------------------------------------------- the allocator object

  class PageFrameAllocator {
    const bitmap: PageFrameBitmap
    var total: nat            // frames in m_totalSystemMemory
    var freeMemory: int
    var usedMemory: int
    var lastTrackedFreePage: nat

    ghost function State(): (s: Frames)
      reads this, bitmap, bitmap.buffer
    {
      Frames(bitmap.Bits(), total, lastTrackedFreePage, freeMemory, usedMemory)
    }

    ghost predicate Ok()
      reads this, bitmap, bitmap.buffer
    {
      Valid(State())
    }

    constructor (bitmap: PageFrameBitmap, total: nat, freeMemory: int, usedMemory: int, hint: nat)
      requires total < 8 * bitmap.buffer.Length
      ensures Ok() && this.bitmap == bitmap
      ensures State() == Frames(bitmap.Bits(), total, hint, freeMemory, usedMemory)
    {
      this.bitmap := bitmap;
      this.total, this.freeMemory, this.usedMemory, this.lastTrackedFreePage := total, freeMemory, usedMemory, hint;
    }

    method FreePhysicalPage(paddr: nat)
      requires Ok() && paddr / PAGE_SIZE < 8 * bitmap.buffer.Length
      modifies this, bitmap.buffer
      ensures Ok() && State() == FreeFrame(old(State()), paddr / PAGE_SIZE)
      ensures bitmap.Bits() == old(bitmap.Bits())[paddr / PAGE_SIZE := false]
      ensures total == old(total) && lastTrackedFreePage == old(lastTrackedFreePage)
      ensures old(bitmap.Bits())[paddr / PAGE_SIZE] ==>
                freeMemory == old(freeMemory) + 4096 && usedMemory == old(usedMemory) - 4096
    {
      FreeMeaning(State(), paddr / PAGE_SIZE);
      var used := bitmap.IsPageUsed(paddr / PAGE_SIZE);
      if !used {
        return;
      }
      var ok := bitmap.SetPageValue(paddr / PAGE_SIZE, false);
      if ok {
        freeMemory := freeMemory + PAGE_SIZE;
        usedMemory := usedMemory - PAGE_SIZE;
      }
    }

    method LockPhysicalPage(paddr: nat)
      requires Ok() && paddr / PAGE_SIZE < 8 * bitmap.buffer.Length
      modifies this, bitmap.buffer
      ensures Ok() && State() == LockFrame(old(State()), paddr / PAGE_SIZE)
      ensures bitmap.Bits() == old(bitmap.Bits())[paddr / PAGE_SIZE := true]
      ensures total == old(total) && lastTrackedFreePage == old(lastTrackedFreePage)
      ensures !old(bitmap.Bits())[paddr / PAGE_SIZE] ==>
                freeMemory == old(freeMemory) - 4096 && usedMemory == old(usedMemory) + 4096
    {
      LockMeaning(State(), paddr / PAGE_SIZE);
      var used := bitmap.IsPageUsed(paddr / PAGE_SIZE);
      if used {
        return;
      }
      var ok := bitmap.SetPageValue(paddr / PAGE_SIZE, true);
      if ok {
        freeMemory := freeMemory - PAGE_SIZE;
        usedMemory := usedMemory + PAGE_SIZE;
      }
    }

    method LockPhysicalPages(paddr: nat, pages: nat)
      requires Ok() && paddr / PAGE_SIZE + pages <= 8 * bitmap.buffer.Length
      modifies this, bitmap.buffer
      ensures Ok() && State() == LockRange(old(State()), paddr / PAGE_SIZE, pages)
    {
      for i := 0 to pages
        invariant Ok() && State() == LockRange(old(State()), paddr / PAGE_SIZE, i)
      {
        assert (paddr + i * PAGE_SIZE) / PAGE_SIZE == paddr / PAGE_SIZE + i;
        LockPhysicalPage(paddr + i * PAGE_SIZE);
      }
    }

    /** Grants the lowest free frame at or above the hint, and reports failure if there is none. */
    method RequestFreePage() returns (r: Option<nat>)
      requires Ok()
      modifies this, bitmap.buffer
      ensures Ok() && (State(), r) == Request(old(State()))
    {
      var page := lastTrackedFreePage;
      while page < total
        invariant Ok() && State() == old(State())
        invariant FirstFree(State().bits, lastTrackedFreePage, total) == FirstFree(State().bits, page, total)
      {
        var used := bitmap.IsPageUsed(page);
        if used {
          page := page + 1;
          continue;
        }
        LockPhysicalPage(page * PAGE_SIZE);
        lastTrackedFreePage := page + 1;
        return Some(page);
      }
      return None;
    }

    /**
     Grants the lowest run of `pages` free frames at or above the hint.  With the frame at the end
     used, no frame past it is ever looked at.
     */
    method RequestFreePages(pages: nat) returns (r: Option<nat>)
      requires Ok() && bitmap.Bits()[total]
      modifies this, bitmap.buffer
      ensures Ok() && (State(), r) == RequestRun(old(State()), pages)
    {
      var page := lastTrackedFreePage;
      while page < total
        invariant Ok() && State() == old(State())
        invariant FirstRun(State().bits, lastTrackedFreePage, total, pages) ==
                    FirstRun(State().bits, page, total, pages)
      {
        var found := IsRunFree(page, pages);
        if !found {
          page := page + 1;
          continue;
        }
        LockRun(page, pages);
        TrackFreePage();
        return Some(page);
      }
      return None;
    }

    method IsRunFree(page: nat, pages: nat) returns (found: bool)
      requires Ok() && bitmap.Bits()[total] && page < total
      ensures found == AllFree(State().bits, page, pages)
      ensures found ==> page + pages <= total
    {
      var block := page;
      while block < page + pages
        invariant page <= block <= page + pages && block <= total
        invariant forall j :: page <= j < block ==> !State().bits[j]
      {
        assert block <= total;
        var used := bitmap.IsPageUsed(block);
        if used {
          return false;
        }
        block := block + 1;
      }
      return true;
    }

    method LockRun(start: nat, pages: nat)
      requires Ok() && start + pages <= 8 * bitmap.buffer.Length
      modifies this, bitmap.buffer
      ensures Ok() && State() == LockRange(old(State()), start, pages)
    {
      for i := 0 to pages
        invariant Ok() && State() == LockRange(old(State()), start, i)
      {
        LockPhysicalPage((start + i) * PAGE_SIZE);
      }
    }

    /** Moves the hint to the lowest free frame at or above it, if there is one. */
    method TrackFreePage()
      requires Ok()
      modifies this`lastTrackedFreePage
      ensures Ok() && State() == old(State()).(hint := lastTrackedFreePage)
      ensures var h := FirstFree(State().bits, old(lastTrackedFreePage), total);
              lastTrackedFreePage == if h < total then h else old(lastTrackedFreePage)
    {
      var pg := lastTrackedFreePage;
      while pg < total
        invariant State() == old(State())
        invariant FirstFree(State().bits, lastTrackedFreePage, total) == FirstFree(State().bits, pg, total)
      {
        var used := bitmap.IsPageUsed(pg);
        if !used {
          lastTrackedFreePage := pg;
          return;
        }
        pg := pg + 1;
      }
    }
  }
}
