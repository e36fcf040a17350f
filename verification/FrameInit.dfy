/**
 Setting the frame allocator up from the firmware's memory map.
 */
module FrameInit {
  import opened FrameBitmap
  import opened FrameAllocator
  import opened PageTables

  /** A memory map entry; `conventional` is the type the kernel may use. */
  datatype Descriptor = Descriptor(conventional: bool, firstFrame: nat, pageCount: nat) {
    ghost predicate Covers(k: int) {
      conventional && firstFrame <= k < firstFrame + pageCount
    }
  }

  function TotalPages(map_: seq<Descriptor>): nat {
    if map_ == [] then 0 else TotalPages(map_[..|map_| - 1]) + map_[|map_| - 1].pageCount
  }

  function ConventionalPages(map_: seq<Descriptor>): nat {
    if map_ == [] then 0
    else ConventionalPages(map_[..|map_| - 1]) +
         if map_[|map_| - 1].conventional then map_[|map_| - 1].pageCount else 0
  }

  /** Bytes of the bitmap. */
  function BitmapSize(map_: seq<Descriptor>): nat {
    TotalPages(map_) / 8 + 1
  }

  /** Pages that are locked for the bitmap. */
  function BitmapPages(map_: seq<Descriptor>): nat {
    BitmapSize(map_) / PAGE_SIZE + 1
  }

  // ------------------------------------------------------------------------- where the bitmap goes

  const TWO64 := 0x1_0000_0000_0000_0000
  const HIGHER_HALF := 0xffff_0000_0000_0000

  /** The alias of a frame is an address of the higher half; `offset` is the distance of aliases, in 64 bits. */
  predicate Higher(frame: nat, offset: nat) {
    (frame * PAGE_SIZE + offset) % TWO64 >= HIGHER_HALF
  }

  datatype Place = Place(frame: nat, pages: nat)

  /** A conventional range that starts in the higher half. */
  predicate Candidate(d: Descriptor, offset: nat) {
    d.conventional && Higher(d.firstFrame, offset)
  }

  function Largest(map_: seq<Descriptor>, offset: nat): Place {
    if map_ == [] then Place(0, 0)
    else
      var p, d := Largest(map_[..|map_| - 1], offset), map_[|map_| - 1];
      if d.pageCount > p.pages && Candidate(d, offset) then Place(d.firstFrame, d.pageCount) else p
  }

  /** The first conventional range from `i` on with room for `size` bytes. */
  function FirstRoom(map_: seq<Descriptor>, size: nat, i: nat): (k: nat)
    requires i <= |map_|
    ensures i <= k <= |map_|
    decreases |map_| - i
  {
    if i == |map_| || (map_[i].conventional && map_[i].pageCount * PAGE_SIZE >= size) then i
    else FirstRoom(map_, size, i + 1)
  }

  /** The frame of the bitmap. */
  function BitmapFrame(map_: seq<Descriptor>, offset: nat): nat {
    var p := Largest(map_, offset);
    if Higher(p.frame, offset) then p.frame
    else
      var i := FirstRoom(map_, BitmapSize(map_), 0);
      if i < |map_| then map_[i].firstFrame else p.frame
  }

  /** The first of the largest ranges that start in the higher half. */
  ghost predicate FirstLargest(map_: seq<Descriptor>, offset: nat, i: nat) {
    && i < |map_| && Candidate(map_[i], offset) && map_[i].pageCount > 0
    && (forall j :: 0 <= j < |map_| && Candidate(map_[j], offset) ==> map_[j].pageCount <= map_[i].pageCount)
    && (forall j :: 0 <= j < i && Candidate(map_[j], offset) ==> map_[j].pageCount < map_[i].pageCount)
  }

  /** The first conventional range with room for the bitmap. */
  ghost predicate FirstWithRoom(map_: seq<Descriptor>, i: nat) {
    && i < |map_| && map_[i].conventional && map_[i].pageCount * PAGE_SIZE >= BitmapSize(map_)
    && forall j :: 0 <= j < i && map_[j].conventional ==> map_[j].pageCount * PAGE_SIZE < BitmapSize(map_)
  }

  lemma {:induction false} FirstLargestIs(map_: seq<Descriptor>, offset: nat) returns (i: nat)
    ensures var p := Largest(map_, offset);
            if p.pages > 0 then FirstLargest(map_, offset, i) && p == Place(map_[i].firstFrame, map_[i].pageCount)
            else p.frame == 0 && forall j :: 0 <= j < |map_| && Candidate(map_[j], offset) ==> map_[j].pageCount == 0
    decreases |map_|
  {
    i := 0;
    if map_ != [] {
      var init, d := map_[..|map_| - 1], map_[|map_| - 1];
      i := FirstLargestIs(init, offset);
      assert forall j :: 0 <= j < |init| ==> init[j] == map_[j];
      if d.pageCount > Largest(init, offset).pages && Candidate(d, offset) { i := |map_| - 1; }
    }
  }

  lemma {:induction false} FirstRoomIs(map_: seq<Descriptor>, i: nat)
    requires i <= |map_|
    requires forall j :: 0 <= j < i && map_[j].conventional ==> map_[j].pageCount * PAGE_SIZE < BitmapSize(map_)
    ensures var k := FirstRoom(map_, BitmapSize(map_), i);
            if k < |map_| then FirstWithRoom(map_, k) else forall j: nat :: !FirstWithRoom(map_, j)
    decreases |map_| - i
  {
    if i < |map_| && !(map_[i].conventional && map_[i].pageCount * PAGE_SIZE >= BitmapSize(map_)) {
      FirstRoomIs(map_, i + 1);
    }
  }

  /**
   The bitmap goes to the first largest conventional range of the higher half. Without one it goes to frame 0 if the
   alias of that is in the higher half, else to the first conventional range with room, else to frame 0.
   */
  lemma BitmapFrameIs(map_: seq<Descriptor>, offset: nat)
    ensures forall i: nat :: FirstLargest(map_, offset, i) ==> BitmapFrame(map_, offset) == map_[i].firstFrame
    ensures (forall i: nat :: !FirstLargest(map_, offset, i)) && Higher(0, offset) ==> BitmapFrame(map_, offset) == 0
    ensures (forall i: nat :: !FirstLargest(map_, offset, i)) && !Higher(0, offset) ==>
              && (forall i: nat :: FirstWithRoom(map_, i) ==> BitmapFrame(map_, offset) == map_[i].firstFrame)
              && ((forall i: nat :: !FirstWithRoom(map_, i)) ==> BitmapFrame(map_, offset) == 0)
  {
    var i := FirstLargestIs(map_, offset);
    FirstRoomIs(map_, 0);
    var k := FirstRoom(map_, BitmapSize(map_), 0);
    forall j: nat | FirstLargest(map_, offset, j)
      ensures Largest(map_, offset).pages > 0 && map_[j].firstFrame == map_[i].firstFrame
    {
      assert Candidate(map_[j], offset);
    }
    forall j: nat | FirstWithRoom(map_, j) ensures k == j {}
  }

  /** Some conventional range in the higher half has room for the bitmap. */
  ghost predicate RoomForBitmap(map_: seq<Descriptor>, offset: nat) {
    exists i :: 0 <= i < |map_| && Candidate(map_[i], offset) && map_[i].pageCount >= BitmapPages(map_)
  }

  /** Then all pages of the bitmap are conventional frames below the end. */
  lemma BitmapPlaced(map_: seq<Descriptor>, offset: nat)
    requires MapOk(map_, TotalPages(map_)) && RoomForBitmap(map_, offset)
    ensures var at := BitmapFrame(map_, offset);
            && at + BitmapPages(map_) <= TotalPages(map_) < 8 * BitmapSize(map_)
            && forall k :: at <= k < at + BitmapPages(map_) ==> Conventional(map_, k)
  {
    var i := FirstLargestIs(map_, offset);
    var p := Largest(map_, offset);
    forall k | p.frame <= k < p.frame + BitmapPages(map_) ensures Conventional(map_, k) {
      assert map_[i].Covers(k);
    }
  }

  // ------------------------------------------------------------------------- the state after initialization

  ghost function AllUsed(n: nat): (bits: seq<bool>)
    ensures |bits| == n && forall i :: 0 <= i < n ==> bits[i]
  {
    seq(n, i => true)
  }

  /** Clears the bits of a range; a frame beyond the bitmap is skipped. */
  ghost function Clear(bits: seq<bool>, start: nat, n: nat): (r: seq<bool>)
    ensures |r| == |bits|
    ensures forall j :: 0 <= j < |bits| ==> r[j] == (bits[j] && !(start <= j < start + n))
    decreases n
  {
    if n == 0 then bits
    else
      var r := Clear(bits, start, n - 1);
      if start + n - 1 < |bits| then r[start + n - 1 := false] else r
  }

  ghost function ClearConventional(bits: seq<bool>, map_: seq<Descriptor>): (r: seq<bool>)
    ensures |r| == |bits|
  {
    if map_ == [] then bits
    else
      var r, d := ClearConventional(bits, map_[..|map_| - 1]), map_[|map_| - 1];
      if d.conventional then Clear(r, d.firstFrame, d.pageCount) else r
  }

  ghost predicate Conventional(map_: seq<Descriptor>, k: int) {
    exists i :: 0 <= i < |map_| && map_[i].Covers(k)
  }

  /** Conventional ranges lie below the end and do not overlap. */
  ghost predicate MapOk(map_: seq<Descriptor>, total: nat) {
    Below(map_, total) && Apart(map_)
  }

  ghost predicate Below(map_: seq<Descriptor>, limit: nat) {
    forall i :: 0 <= i < |map_| && map_[i].conventional ==> map_[i].firstFrame + map_[i].pageCount <= limit
  }

  ghost predicate Apart(map_: seq<Descriptor>) {
    forall i, j :: 0 <= i < j < |map_| && map_[i].conventional && map_[j].conventional ==>
      map_[i].firstFrame + map_[i].pageCount <= map_[j].firstFrame ||
      map_[j].firstFrame + map_[j].pageCount <= map_[i].firstFrame
  }

  /** Each range starts where the one before it ends, the first at frame 0. */
  ghost predicate GapFree(map_: seq<Descriptor>) {
    forall i :: 0 <= i < |map_| ==> map_[i].firstFrame == EndBefore(map_, i)
  }

  function EndBefore(map_: seq<Descriptor>, i: nat): nat
    requires i <= |map_|
  {
    if i == 0 then 0 else map_[i - 1].firstFrame + map_[i - 1].pageCount
  }

  lemma {:induction false} PrefixTotals(map_: seq<Descriptor>, i: nat, j: nat)
    requires i <= j <= |map_|
    ensures TotalPages(map_[..i]) <= TotalPages(map_[..j])
    ensures GapFree(map_) ==> EndBefore(map_, j) == TotalPages(map_[..j])
    decreases j
  {
    if j > 0 {
      assert map_[..j][..j - 1] == map_[..j - 1];
      PrefixTotals(map_, if i < j then i else j - 1, j - 1);
      assert GapFree(map_) ==> map_[j - 1].firstFrame == EndBefore(map_, j - 1);
    }
  }

  lemma EndsInOrder(map_: seq<Descriptor>, i: nat, j: nat)
    requires GapFree(map_) && i < j <= |map_|
    ensures map_[i].firstFrame + map_[i].pageCount <= EndBefore(map_, j)
  {
    PrefixTotals(map_, 0, i + 1);
    PrefixTotals(map_, i + 1, j);
    assert EndBefore(map_, i + 1) == map_[i].firstFrame + map_[i].pageCount;
  }

  /** In a map without gaps the frames counted reach the end of the last range, so all ranges lie below. */
  lemma GapFreeFits(map_: seq<Descriptor>)
    requires GapFree(map_)
    ensures EndBefore(map_, |map_|) == TotalPages(map_)
    ensures forall i :: 0 <= i < |map_| ==> map_[i].firstFrame + map_[i].pageCount <= TotalPages(map_)
    ensures MapOk(map_, TotalPages(map_))
  {
    assert map_[..|map_|] == map_;
    PrefixTotals(map_, 0, |map_|);
    forall i | 0 <= i < |map_| ensures map_[i].firstFrame + map_[i].pageCount <= TotalPages(map_) {
      EndsInOrder(map_, i, |map_|);
    }
    forall i, j | 0 <= i < j < |map_| ensures map_[i].firstFrame + map_[i].pageCount <= map_[j].firstFrame {
      EndsInOrder(map_, i, j);
    }
  }

  lemma {:induction false} ClearConventionalBits(bits: seq<bool>, map_: seq<Descriptor>)
    ensures forall k :: 0 <= k < |bits| ==> ClearConventional(bits, map_)[k] == (bits[k] && !Conventional(map_, k))
  {
    if map_ != [] {
      var init, d := map_[..|map_| - 1], map_[|map_| - 1];
      ClearConventionalBits(bits, init);
      forall k | 0 <= k < |bits|
        ensures Conventional(map_, k) <==> Conventional(init, k) || d.Covers(k)
      {
        ConventionalSnoc(map_, k);
      }
    }
  }

  lemma ConventionalSnoc(map_: seq<Descriptor>, k: int)
    requires map_ != []
    ensures Conventional(map_, k) <==> Conventional(map_[..|map_| - 1], k) || map_[|map_| - 1].Covers(k)
  {
    var init := map_[..|map_| - 1];
    if Conventional(init, k) {
      var i :| 0 <= i < |init| && init[i].Covers(k);
      assert map_[i].Covers(k);
    }
    if Conventional(map_, k) {
      var i :| 0 <= i < |map_| && map_[i].Covers(k);
      if i < |init| { assert init[i].Covers(k); }
    }
  }

  /** How many of `n` frames from `start` on are below `limit`. */
  function Cut(start: nat, n: nat, limit: nat): nat {
    if start + n <= limit then n else if start < limit then limit - start else 0
  }

  /** The conventional pages below `limit`. */
  function PagesBelow(map_: seq<Descriptor>, limit: nat): nat {
    if map_ == [] then 0
    else
      var d := map_[|map_| - 1];
      PagesBelow(map_[..|map_| - 1], limit) + if d.conventional then Cut(d.firstFrame, d.pageCount, limit) else 0
  }

  lemma {:induction false} ClearCounts(bits: seq<bool>, start: nat, n: nat)
    requires forall j :: start <= j < start + n && j < |bits| ==> bits[j]
    ensures CountFree(Clear(bits, start, n)) == CountFree(bits) + Cut(start, n, |bits|)
    decreases n
  {
    if n > 0 {
      ClearCounts(bits, start, n - 1);
      if start + n - 1 < |bits| { CountUpdate(Clear(bits, start, n - 1), start + n - 1, false); }
    }
  }

  /** Disjoint ranges are counted once each, as far as the bitmap reaches. */
  lemma {:induction false} ConventionalCounts(bits: seq<bool>, map_: seq<Descriptor>)
    requires Apart(map_) && forall k :: 0 <= k < |bits| ==> bits[k]
    ensures CountFree(ClearConventional(bits, map_)) == CountFree(bits) + PagesBelow(map_, |bits|)
  {
    if map_ != [] {
      var init, d := map_[..|map_| - 1], map_[|map_| - 1];
      ConventionalCounts(bits, init);
      if d.conventional {
        var r := ClearConventional(bits, init);
        ClearConventionalBits(bits, init);
        forall j | d.firstFrame <= j < d.firstFrame + d.pageCount ensures !Conventional(init, j) {
          forall i | 0 <= i < |init| ensures !init[i].Covers(j) {
            assert init[i] == map_[i];
          }
        }
        ClearCounts(r, d.firstFrame, d.pageCount);
      }
    }
  }

  /** All conventional pages are below the limit exactly if no conventional frame is at or above it. */
  lemma {:induction false} PagesBelowAll(map_: seq<Descriptor>, limit: nat)
    ensures PagesBelow(map_, limit) <= ConventionalPages(map_)
    ensures PagesBelow(map_, limit) == ConventionalPages(map_) <==> forall k :: k >= limit ==> !Conventional(map_, k)
  {
    if map_ != [] {
      var init, d := map_[..|map_| - 1], map_[|map_| - 1];
      PagesBelowAll(init, limit);
      forall k ensures Conventional(map_, k) <==> Conventional(init, k) || d.Covers(k) { ConventionalSnoc(map_, k); }
      if d.conventional && d.pageCount > 0 && d.firstFrame + d.pageCount > limit {
        assert d.Covers(d.firstFrame + d.pageCount - 1);
      }
    }
  }

  lemma {:induction false} AllUsedCount(bits: seq<bool>)
    requires forall k :: 0 <= k < |bits| ==> bits[k]
    ensures CountFree(bits) == 0
  {
    if bits != [] { AllUsedCount(bits[..|bits| - 1]); }
  }

  /** The bitmap once the conventional frames are cleared. */
  ghost function ClearedBits(map_: seq<Descriptor>): (bits: seq<bool>)
    ensures |bits| == 8 * BitmapSize(map_) && TotalPages(map_) < |bits|
  {
    ClearConventional(AllUsed(8 * BitmapSize(map_)), map_)
  }

  lemma ClearedBitsMeaning(map_: seq<Descriptor>)
    ensures forall k :: 0 <= k < |ClearedBits(map_)| ==> (!ClearedBits(map_)[k] <==> Conventional(map_, k))
    ensures Apart(map_) ==> CountFree(ClearedBits(map_)) == PagesBelow(map_, 8 * BitmapSize(map_))
  {
    var all := AllUsed(8 * BitmapSize(map_));
    ClearConventionalBits(all, map_);
    AllUsedCount(all);
    if Apart(map_) { ConventionalCounts(all, map_); }
  }

  lemma BelowHasAll(map_: seq<Descriptor>, limit: nat)
    requires Below(map_, limit)
    ensures forall k :: k >= limit ==> !Conventional(map_, k)
  {
    forall k, i | k >= limit && 0 <= i < |map_| ensures !map_[i].Covers(k) {}
  }

  /** The state before the bitmap's own pages are locked. */
  ghost function ClearedState(map_: seq<Descriptor>): Frames {
    var total, free := TotalPages(map_), PAGE_SIZE * ConventionalPages(map_);
    var h := FirstFree(ClearedBits(map_), 0, total);
    Frames(ClearedBits(map_), total, if h < total then h else 0, free, PAGE_SIZE * total - free)
  }

  /** The state that initialization leaves, for a bitmap placed at frame `at`. */
  ghost function InitState(map_: seq<Descriptor>, at: nat): Frames
    requires at + BitmapPages(map_) <= 8 * BitmapSize(map_)
  {
    LockRange(ClearedState(map_), at, BitmapPages(map_))
  }

  /** For every memory map, free are exactly the conventional frames that have a bit and are outside the bitmap. */
  lemma InitBits(map_: seq<Descriptor>, at: nat)
    requires at + BitmapPages(map_) <= 8 * BitmapSize(map_)
    ensures var s := InitState(map_, at);
            forall k :: 0 <= k < |s.bits| ==>
              (!s.bits[k] <==> Conventional(map_, k) && !(at <= k < at + BitmapPages(map_)))
  {
    ClearedBitsMeaning(map_);
  }

  /** The hint starts at the lowest conventional frame below the end, or at 0 if there is none. */
  lemma InitHint(map_: seq<Descriptor>, at: nat)
    requires at + BitmapPages(map_) <= 8 * BitmapSize(map_)
    ensures var s := InitState(map_, at);
            if exists k :: 0 <= k < s.total && Conventional(map_, k)
            then s.hint < s.total && Conventional(map_, s.hint) &&
                 forall k :: 0 <= k < s.hint ==> !Conventional(map_, k)
            else s.hint == 0
  {
    ClearedBitsMeaning(map_);
  }

  /**
   The free counter exceeds the free frames by the conventional pages that have no bit, so it is right exactly if there
   are none.
   */
  lemma InitBalancedExactly(map_: seq<Descriptor>, at: nat)
    requires at + BitmapPages(map_) <= 8 * BitmapSize(map_) && Apart(map_)
    ensures var s := InitState(map_, at);
            && s.freeMemory == PAGE_SIZE * (CountFree(s.bits) + ConventionalPages(map_) - PagesBelow(map_, |s.bits|))
            && (Balanced(s, PAGE_SIZE * TotalPages(map_)) <==> forall k :: k >= |s.bits| ==> !Conventional(map_, k))
  {
    ClearedBitsMeaning(map_);
    PagesBelowAll(map_, 8 * BitmapSize(map_));
    LockRangeKeepsExcess(ClearedState(map_), at, BitmapPages(map_), InitState(map_, at));
  }

  /** Frames past the end are never granted, free or not, as long as the frame at the end is not conventional. */
  lemma PastEndNeverGranted(map_: seq<Descriptor>, at: nat, ops: seq<FrameOp>, op: FrameOp, k: nat)
    requires at + BitmapPages(map_) <= 8 * BitmapSize(map_) && !Conventional(map_, TotalPages(map_))
    requires var s := InitState(map_, at); AllInRange(s, ops) && InRange(s, op) && AllKeepEnd(s, ops)
    requires k >= TotalPages(map_)
    ensures !Do(Run(InitState(map_, at), ops), op).1.Has(k)
  {
    InitBits(map_, at);
    BelowHintNeverGranted(InitState(map_, at), ops, op);
    GrantsWereFree(Run(InitState(map_, at), ops), op);
  }

  /** Two ranges of `n` pages with a gap of `n` between them. */
  function Holed(n: nat): seq<Descriptor> {
    [Descriptor(true, 0, n), Descriptor(true, 2 * n, n)]
  }

  lemma HoledMap(n: nat)
    requires n > 0
    ensures TotalPages(Holed(n)) == 2 * n && Apart(Holed(n)) && Conventional(Holed(n), 3 * n - 1)
  {
    var m := Holed(n);
    assert m[..1] == [m[0]] && m[..1][..0] == [];
    assert TotalPages(m) == TotalPages(m[..1]) + n && TotalPages(m[..1]) == TotalPages(m[..1][..0]) + n;
    assert m[1].Covers(3 * n - 1);
  }

  /** The last page of the second range is counted as free and has no bit. */
  lemma HoleLosesFrames(n: nat, at: nat)
    requires n > 8 && at + BitmapPages(Holed(n)) <= 8 * BitmapSize(Holed(n))
    ensures Conventional(Holed(n), 3 * n - 1) && 3 * n - 1 >= |InitState(Holed(n), at).bits|
    ensures !Balanced(InitState(Holed(n), at), PAGE_SIZE * TotalPages(Holed(n)))
  {
    HoledMap(n);
    InitBalancedExactly(Holed(n), at);
  }

  /**
   Initialization leaves free exactly the conventional frames outside the bitmap, with exact counters,
   a used frame at the end and a hint below every free frame.
   */
  lemma InitFree(map_: seq<Descriptor>, at: nat)
    requires at + BitmapPages(map_) <= 8 * BitmapSize(map_)
    requires MapOk(map_, TotalPages(map_))
    ensures var s := InitState(map_, at);
            && Valid(s) && s.bits[s.total] && HintBounds(s)
            && Balanced(s, PAGE_SIZE * TotalPages(map_))
            && (forall k :: 0 <= k < |s.bits| ==>
                  (!s.bits[k] <==> Conventional(map_, k) && !(at <= k < at + BitmapPages(map_))))
  {
    BelowHasAll(map_, TotalPages(map_));
    InitBits(map_, at);
    InitBalancedExactly(map_, at);
  }

  /** Every byte of the bitmap, which starts at the first byte of frame `at`, lies in a used frame. */
  lemma BitmapBytesUsed(map_: seq<Descriptor>, at: nat, b: nat)
    requires at + BitmapPages(map_) <= 8 * BitmapSize(map_) && b < TotalPages(map_) / 8 + 1
    ensures (at * 4096 + b) / 4096 < |InitState(map_, at).bits| && InitState(map_, at).bits[(at * 4096 + b) / 4096]
  {
    assert (at * 4096 + b) / 4096 == at + b / 4096;
  }

  lemma {:induction false} LockRangeTakes(s: Frames, start: nat, n: nat)
    requires start + n <= |s.bits| && forall k :: start <= k < start + n ==> !s.bits[k]
    ensures LockRange(s, start, n).freeMemory == s.freeMemory - PAGE_SIZE * n
    decreases n
  {
    if n > 0 { LockRangeTakes(s, start, n - 1); }
  }

  /** With room for the bitmap, what is free afterwards is the conventional memory less the bitmap's own pages. */
  lemma InitCounts(map_: seq<Descriptor>, offset: nat)
    requires MapOk(map_, TotalPages(map_)) && RoomForBitmap(map_, offset)
    ensures BitmapFrame(map_, offset) + BitmapPages(map_) <= 8 * BitmapSize(map_)
    ensures InitState(map_, BitmapFrame(map_, offset)).freeMemory ==
            PAGE_SIZE * (ConventionalPages(map_) - BitmapPages(map_))
  {
    var at := BitmapFrame(map_, offset);
    BitmapPlaced(map_, offset);
    ClearedBitsMeaning(map_);
    LockRangeTakes(ClearedState(map_), at, BitmapPages(map_));
  }

  /** The frames of the kernel heap: it starts right behind the bitmap. */
  function HeapFrame(map_: seq<Descriptor>, at: nat): nat {
    at + BitmapSize(map_) / PAGE_SIZE
  }

  /**
   The lock taken for the kernel heap comes before the conventional frames are cleared, so it does not last: a heap
   frame past the bitmap's own pages is free afterwards exactly if it is conventional, and is then among the frames
   that requests will grant.
   */
  lemma HeapNotReserved(map_: seq<Descriptor>, at: nat, heapSize: nat, k: nat)
    requires at + BitmapPages(map_) <= 8 * BitmapSize(map_) && MapOk(map_, TotalPages(map_))
    requires HeapFrame(map_, at) < k < HeapFrame(map_, at) + heapSize / PAGE_SIZE && k < TotalPages(map_)
    ensures Valid(InitState(map_, at))
    ensures !InitState(map_, at).bits[k] <==> Conventional(map_, k)
    ensures k in Supply(InitState(map_, at)) <==> Conventional(map_, k)
  {
    var s := InitState(map_, at);
    InitFree(map_, at);
    FreeListSound(s.bits, s.hint, s.total);
    if !s.bits[k] { FreeListComplete(s.bits, s.hint, s.total, k); }
  }

  const KERNEL_HEAP_INIT_SIZE := 0x6000_0000

  lemma OneRange(n: nat)
    ensures var m := [Descriptor(true, 0, n)];
            && TotalPages(m) == n && MapOk(m, n) && forall k :: Conventional(m, k) <==> 0 <= k < n
  {
    var m := [Descriptor(true, 0, n)];
    assert m[..0] == [] && TotalPages(m[..0]) == 0;
    forall k ensures Conventional(m, k) <==> 0 <= k < n {
      assert m[0].Covers(k) <==> 0 <= k < n;
    }
  }

  /** The frame that the first request grants. */
  lemma FirstGrant(s: Frames, k: nat)
    requires Valid(s) && s.hint <= k < s.total && !s.bits[k] && forall j :: s.hint <= j < k ==> s.bits[j]
    ensures Request(s).1 == Some(k)
  {
  }

  /** The pages of the kernel heap, right behind a bitmap at frame `at`, are among the frames of the bitmap. */
  predicate HeapFits(map_: seq<Descriptor>, at: nat) {
    HeapFrame(map_, at) + KERNEL_HEAP_INIT_SIZE / PAGE_SIZE <= 8 * BitmapSize(map_)
  }

  /** With one conventional range, the first frame granted is the first behind the pages of the bitmap. */
  lemma FirstGrantIs(n: nat)
    requires n > 2
    ensures var m := [Descriptor(true, 0, n)];
            && BitmapPages(m) <= 8 * BitmapSize(m) && MapOk(m, n) && TotalPages(m) == n
            && Valid(InitState(m, 0)) && Request(InitState(m, 0)).1 == Some(BitmapPages(m)) && BitmapPages(m) < n
  {
    var m := [Descriptor(true, 0, n)];
    OneRange(n);
    SmallBitmap(m);
    InitFree(m, 0);
    var s, k := InitState(m, 0), BitmapPages(m);
    assert Conventional(m, k) && !s.bits[k];
    FirstGrant(s, k);
  }

  /**
   On a machine whose memory is one conventional range, the very first frame granted is a frame of the kernel heap.
   */
  lemma FirstGrantIsHeapFrame(n: nat)
    requires HeapFits([Descriptor(true, 0, n)], 0)
    ensures var m := [Descriptor(true, 0, n)];
            && BitmapPages(m) <= 8 * BitmapSize(m) && Valid(InitState(m, 0))
            && var g := Request(InitState(m, 0)).1;
               g.Some? && HeapFrame(m, 0) <= g.value < HeapFrame(m, 0) + KERNEL_HEAP_INIT_SIZE / PAGE_SIZE
  {
    OneRange(n);
    FirstGrantIs(n);
  }

  lemma SmallBitmap(m: seq<Descriptor>)
    ensures BitmapPages(m) <= 8 * BitmapSize(m) && (TotalPages(m) > 2 ==> BitmapPages(m) < TotalPages(m))
  {
  }

  /** Memory of twice the size of the kernel heap is enough for initialization. */
  lemma LargeEnough(n: nat)
    requires n > 2 * (KERNEL_HEAP_INIT_SIZE / PAGE_SIZE)
    ensures var m := [Descriptor(true, 0, n)];
            HeapFits(m, 0) && BitmapPages(m) <= 8 * BitmapSize(m) && !Conventional(m, 8 * BitmapSize(m))
  {
    var m := [Descriptor(true, 0, n)];
    OneRange(n);
    SmallBitmap(m);
    assert !(0 <= 8 * BitmapSize(m) < n);
  }

  /**
   On a machine whose memory is one conventional range, large enough for initialization: the first frame that is
   granted, if it is freed next, is never granted again by any calls that follow.
   */
  lemma FreedFrameNotGranted(n: nat, ops: seq<FrameOp>, op: FrameOp)
    requires n > 2 * (KERNEL_HEAP_INIT_SIZE / PAGE_SIZE)
    ensures var m := [Descriptor(true, 0, n)];
            && BitmapPages(m) <= 8 * BitmapSize(m) && HeapFits(m, 0) && !Conventional(m, 8 * BitmapSize(m))
            && Valid(InitState(m, 0)) && HintBounds(InitState(m, 0))
            && var (s, g) := Request(InitState(m, 0));
               && g.Some? && g.value < |s.bits| && Valid(s) && !HarmlessFree(s, g.value)
               && !FreeFrame(s, g.value).bits[g.value]
               && (AllInRange(s, ops) && InRange(s, op) && AllKeepEnd(s, ops) ==>
                     !Do(Run(FreeFrame(s, g.value), ops), op).1.Has(g.value))
  {
    var m := [Descriptor(true, 0, n)];
    LargeEnough(n);
    FirstGrantIs(n);
    InitFree(m, 0);
    var (s, g) := Request(InitState(m, 0));
    if AllInRange(s, ops) && InRange(s, op) && AllKeepEnd(s, ops) {
      HarmfulFreeIsLost(s, g.value, ops, op);
    }
  }

  /** Locking used frames changes nothing. */
  lemma {:induction false} LockUsed(s: Frames, start: nat, n: nat)
    requires start + n <= |s.bits| && forall k :: start <= k < start + n ==> s.bits[k]
    ensures LockRange(s, start, n) == s
    decreases n
  {
    if n > 0 { LockUsed(s, start, n - 1); }
  }

  method CountPages(map_: seq<Descriptor>) returns (total: nat, conventional: nat)
    ensures total == TotalPages(map_) && conventional == ConventionalPages(map_)
  {
    total, conventional := 0, 0;
    for i := 0 to |map_|
      invariant total == TotalPages(map_[..i]) && conventional == ConventionalPages(map_[..i])
    {
      assert map_[..i + 1][..i] == map_[..i];
      total := total + map_[i].pageCount;
      if map_[i].conventional {
        conventional := conventional + map_[i].pageCount;
      }
    }
    assert map_[..|map_|] == map_;
  }

  method MarkFree(a: PageFrameAllocator, first: nat, pages: nat)
    requires a.Ok() && !(first <= 8 * a.bitmap.buffer.Length < first + pages)
    modifies a.bitmap.buffer
    ensures a.Ok() && a.State() == old(a.State()).(bits := Clear(old(a.State().bits), first, pages))
  {
    for i := 0 to pages
      invariant a.Ok() && a.State() == old(a.State()).(bits := Clear(old(a.State().bits), first, i))
    {
      var _ := a.bitmap.SetPageValue(first + i, false);
    }
  }

  method MarkConventional(a: PageFrameAllocator, map_: seq<Descriptor>)
    requires a.Ok()
    requires !Conventional(map_, 8 * a.bitmap.buffer.Length)
    modifies a.bitmap.buffer
    ensures a.Ok() && a.State() == old(a.State()).(bits := ClearConventional(old(a.State().bits), map_))
  {
    for i := 0 to |map_|
      invariant a.Ok() && a.State() == old(a.State()).(bits := ClearConventional(old(a.State().bits), map_[..i]))
    {
      assert map_[..i + 1][..i] == map_[..i];
      assert !map_[i].Covers(8 * a.bitmap.buffer.Length);
      if map_[i].conventional {
        MarkFree(a, map_[i].firstFrame, map_[i].pageCount);
      }
    }
    assert map_[..|map_|] == map_;
  }

  /** A bitmap with every frame used, in which the pages of the heap are then locked to no effect. */
  method NewAllocator(map_: seq<Descriptor>, at: nat, heapSize: nat) returns (a: PageFrameAllocator)
    requires HeapFrame(map_, at) + heapSize / PAGE_SIZE <= 8 * BitmapSize(map_)
    ensures fresh(a) && fresh(a.bitmap.buffer) && a.Ok() && a.bitmap.buffer.Length == BitmapSize(map_)
    ensures a.State() == Frames(AllUsed(8 * BitmapSize(map_)), TotalPages(map_), 0,
                                PAGE_SIZE * ConventionalPages(map_), 0)
  {
    var total, conventional := CountPages(map_);
    var bitmap := new PageFrameBitmap(total / 8 + 1);
    a := new PageFrameAllocator(bitmap, total, PAGE_SIZE * conventional, 0, 0);
    assert a.State().bits == AllUsed(8 * BitmapSize(map_));
    LockAgain(a, HeapFrame(map_, at), heapSize / PAGE_SIZE);
  }

  /** Locks pages that are used already. */
  method LockAgain(a: PageFrameAllocator, frame: nat, pages: nat)
    requires a.Ok() && frame + pages <= 8 * a.bitmap.buffer.Length
    requires forall k :: frame <= k < frame + pages ==> a.State().bits[k]
    modifies a, a.bitmap.buffer
    ensures a.Ok() && a.State() == old(a.State())
  {
    LockUsed(a.State(), frame, pages);
    a.LockPhysicalPages(frame * PAGE_SIZE, pages);
  }

  /** The loops that find the place of the bitmap. */
  method FindBitmapFrame(map_: seq<Descriptor>, offset: nat, size: nat) returns (at: nat)
    requires size == BitmapSize(map_)
    ensures at == BitmapFrame(map_, offset)
  {
    var pages := 0;
    at := 0;
    for i := 0 to |map_|
      invariant Largest(map_[..i], offset) == Place(at, pages)
    {
      assert map_[..i + 1][..i] == map_[..i];
      if map_[i].conventional && map_[i].pageCount > pages && Higher(map_[i].firstFrame, offset) {
        at, pages := map_[i].firstFrame, map_[i].pageCount;
      }
    }
    assert map_[..|map_|] == map_;
    if !Higher(at, offset) {
      for i := 0 to |map_|
        invariant FirstRoom(map_, size, 0) == FirstRoom(map_, size, i)
      {
        if map_[i].conventional && map_[i].pageCount * PAGE_SIZE >= size {
          return map_[i].firstFrame;
        }
      }
    }
  }

  /** Initialization: place the bitmap, use all frames, lock the heap, clear conventional ones, lock the bitmap. */
  method InitializeFromMemoryMap(map_: seq<Descriptor>, offset: nat, heapSize: nat) returns (a: PageFrameAllocator)
    requires BitmapFrame(map_, offset) + BitmapPages(map_) <= 8 * BitmapSize(map_)
    requires HeapFrame(map_, BitmapFrame(map_, offset)) + heapSize / PAGE_SIZE <= 8 * BitmapSize(map_)
    requires !Conventional(map_, 8 * BitmapSize(map_))    // the one index the overflow guard lets through
    ensures fresh(a) && a.Ok() && a.State() == InitState(map_, BitmapFrame(map_, offset))
  {
    var at := FindBitmapFrame(map_, offset, BitmapSize(map_));
    a := NewAllocator(map_, at, heapSize);
    MarkConventional(a, map_);
    SetHintAndUsed(a, map_);
    LockTwice(a, at, BitmapPages(map_));
  }

  /** Locks pages by their physical and then by their virtual address. */
  method LockTwice(a: PageFrameAllocator, frame: nat, pages: nat)
    requires a.Ok() && frame + pages <= 8 * a.bitmap.buffer.Length
    modifies a, a.bitmap.buffer
    ensures a.Ok() && a.State() == LockRange(old(a.State()), frame, pages)
  {
    ghost var s := a.State();
    a.LockPhysicalPages(frame * PAGE_SIZE, pages);
    ghost var t := LockRange(s, frame, pages);
    assert a.State() == t && forall k :: frame <= k < frame + pages ==> t.bits[k];
    LockAgain(a, frame, pages);
  }

  method SetHintAndUsed(a: PageFrameAllocator, ghost map_: seq<Descriptor>)
    requires a.Ok()
    requires a.State() == Frames(ClearedBits(map_), TotalPages(map_), 0, PAGE_SIZE * ConventionalPages(map_), 0)
    modifies a
    ensures a.Ok() && a.State() == ClearedState(map_)
  {
    a.TrackFreePage();
    a.usedMemory := PAGE_SIZE * a.total - a.freeMemory;
  }
}
