/**
 The chain of the kernel heap as bytes in memory: which stores leave which chain, and when the headers of the chain
 survive a free over a wrong back-link.
 */
module HeapBytes {
  import opened HeapMemory
  import opened HeapChain
  import opened HeapCalls

  const TWO63 := 0x8000_0000_0000_0000

  // ------------------------------------------------------------------------- headers of a chain

  ghost predicate InHeader(segs: seq<Seg>, x: int) {
    exists k :: 0 <= k < |segs| && segs[k].addr <= x < segs[k].addr + HEADER
  }

  /** Nothing but headers of the chain was rewritten. */
  ghost predicate OnlyHeaders(m: Mem, r: Mem, segs: seq<Seg>) {
    |r| == |m| && forall x :: 0 <= x < |m| && !InHeader(segs, x) ==> r[x] == m[x]
  }

  lemma Compose(m: Mem, mid: Mem, r: Mem, segs: seq<Seg>)
    requires OnlyHeaders(m, mid, segs) && OnlyHeaders(mid, r, segs)
    ensures OnlyHeaders(m, r, segs)
  {
  }

  ghost predicate HasHeader(segs: seq<Seg>, a: nat) {
    exists j :: 0 <= j < |segs| && segs[j].addr == a
  }

  /** Headers of one chain are headers of another that has them too. */
  lemma HeadersOfMore(m: Mem, r: Mem, segs: seq<Seg>, more: seq<Seg>)
    requires OnlyHeaders(m, r, segs)
    requires forall k :: 0 <= k < |segs| ==> HasHeader(more, segs[k].addr)
    ensures OnlyHeaders(m, r, more)
  {
    forall x | 0 <= x < |m| && !InHeader(more, x) ensures !InHeader(segs, x) {
    }
  }

  /** No header of the chain lies in these bytes. */
  ghost predicate OffHeaders(segs: seq<Seg>, lo: nat, n: nat) {
    forall x :: lo <= x < lo + n ==> !InHeader(segs, x)
  }

  predicate InPayload(seg: Seg, x: int) {
    seg.addr + HEADER <= x < seg.addr + seg.size
  }

  /** A payload holds no header of the chain. */
  lemma PayloadOffHeaders(segs: seq<Seg>, i: nat, x: nat, limit: nat)
    requires Spaced(segs, limit) && i < |segs| && InPayload(segs[i], x)
    ensures !InHeader(segs, x) && x < limit
  {
    forall k | 0 <= k < |segs| ensures !(segs[k].addr <= x < segs[k].addr + HEADER) {
      assert k < i ==> segs[k].addr + segs[k].size <= segs[i].addr;
      assert k > i ==> segs[i].addr + segs[i].size <= segs[k].addr;
    }
  }

  /** The payloads of two segments are apart from each other and from all headers. */
  lemma PayloadsApart(segs: seq<Seg>, d: nat, s: nat, size: nat, limit: nat)
    requires Spaced(segs, limit) && d < |segs| && s < |segs| && d != s
    requires size <= segs[d].size - HEADER && size <= segs[s].size - HEADER
    ensures var dest, src := segs[d].addr + HEADER, segs[s].addr + HEADER;
            && dest + size <= limit && src + size <= limit && (dest + size <= src || src + size <= dest)
            && OffHeaders(segs, dest, size)
  {
    var dest := segs[d].addr + HEADER;
    forall x | dest <= x < dest + size ensures !InHeader(segs, x) {
      PayloadOffHeaders(segs, d, x, limit);
    }
  }

  /** Rewriting one header of a chain rewrites only headers. */
  lemma OneHeader(m: Mem, r: Mem, segs: seq<Seg>, k: nat)
    requires k < |segs| && SameOutside(m, r, segs[k].addr, segs[k].addr + HEADER)
    ensures OnlyHeaders(m, r, segs)
  {
  }

  /** Only the bytes of two headers differ. */
  ghost predicate OnlyTwo(m: Mem, r: Mem, a: nat, b: nat) {
    |r| == |m| && forall x :: 0 <= x < |m| && !(a <= x < a + HEADER) && !(b <= x < b + HEADER) ==> r[x] == m[x]
  }

  lemma TwoHeaders(m: Mem, r: Mem, segs: seq<Seg>, j: nat, k: nat)
    requires j < |segs| && k < |segs| && OnlyTwo(m, r, segs[j].addr, segs[k].addr)
    ensures OnlyHeaders(m, r, segs)
  {
  }

  lemma SameHeaders(m: Mem, r: Mem, segs: seq<Seg>, segs': seq<Seg>)
    requires OnlyHeaders(m, r, segs) && |segs| == |segs'|
    requires forall k :: 0 <= k < |segs| ==> segs'[k].addr == segs[k].addr
    ensures OnlyHeaders(m, r, segs')
  {
    forall k | 0 <= k < |segs| ensures HasHeader(segs', segs[k].addr) {
      assert segs'[k].addr == segs[k].addr;
    }
    HeadersOfMore(m, r, segs, segs');
  }

  lemma NextBelow(v: Headers, segs: seq<Seg>, i: nat, limit: nat)
    requires Linked(v, segs, limit) && i < |segs|
    ensures NextAddr(segs, i) + HEADER <= limit && (i + 1 < |segs| ==> segs[i].addr + HEADER <= NextAddr(segs, i))
    ensures NextAddr(segs, i) == 0 <==> i + 1 == |segs|
  {
  }

  // ------------------------------------------------------------------------- memory that shows a chain

  /** Following the next links in memory from the first header visits exactly these segments. */
  ghost predicate Shown(m: Mem, segs: seq<Seg>) {
    |m| < TWO63 && exists v :: Shows(m, v) && Linked(v, segs, |m|)
  }

  lemma ShownAt(m: Mem, segs: seq<Seg>, k: nat)
    requires Shown(m, segs) && k < |segs|
    ensures Spaced(segs, |m|) && segs[k].addr + HEADER <= |m| && HeaderAt(m, segs[k].addr) == HeaderOf(segs, k)
  {
    var v :| Shows(m, v) && Linked(v, segs, |m|);
    assert segs[k].addr in v && v[segs[k].addr] == HeaderOf(segs, k);
    assert HeaderIn(m, v, segs[k].addr);
  }

  /** The headers of the chain, without others that were once seen. */
  ghost function Known(v: Headers, segs: seq<Seg>): Headers {
    map a | a in v && HasHeader(segs, a) :: v[a]
  }

  /** Stores that avoid the headers of the chain leave them as they were. */
  lemma PruneShows(m: Mem, r: Mem, v: Headers, segs: seq<Seg>, limit: nat)
    requires Shows(m, v) && Linked(v, segs, limit) && |r| == |m|
    requires forall x :: 0 <= x < |m| && InHeader(segs, x) ==> r[x] == m[x]
    ensures Shows(r, Known(v, segs)) && Linked(Known(v, segs), segs, limit)
  {
    var k := Known(v, segs);
    forall a | a in k ensures HeaderIn(r, k, a) {
      assert HeaderIn(m, v, a);
      var j :| 0 <= j < |segs| && segs[j].addr == a;
      forall x | a <= x < a + HEADER ensures r[x] == m[x] {
        assert InHeader(segs, x);
      }
      SameHeader(m, r, a);
    }
    forall i | 0 <= i < |segs| ensures segs[i].addr in k && k[segs[i].addr] == HeaderOf(segs, i) {
      assert segs[i].addr in v && HasHeader(segs, segs[i].addr);
    }
  }

  /** Every segment of the chain carries the signature. */
  lemma SignedSegment(m: Mem, v: Headers, segs: seq<Seg>, i: nat)
    requires Shows(m, v) && Linked(v, segs, |m|) && i < |segs|
    ensures segs[i].addr + HEADER <= |m| && m[segs[i].addr..segs[i].addr + 7] == SIGNATURE
  {
    assert HeaderIn(m, v, segs[i].addr);
    assert v[segs[i].addr] == HeaderOf(segs, i);
  }

  /** A header is rewritten: the others that do not overlap it are still there. */
  lemma Rewrote(m: Mem, v: Headers, r: Mem, a: nat, h: Header) returns (v': Headers)
    requires Shows(m, v) && Rewritten(m, r, a, h)
    ensures |r| == |m| && Shows(r, v') && Updated(v, v', a, h)
  {
    WriteShows(m, v, r, a, h);
    v' := Write(v, a, h);
  }

  /** A header found in memory is added to those known. */
  lemma SeeHeader(m: Mem, v: Headers, segs: seq<Seg>, a: nat, limit: nat)
    requires Shows(m, v) && Linked(v, segs, limit) && a + HEADER <= |m|
    ensures Shows(m, v[a := HeaderAt(m, a)]) && Linked(v[a := HeaderAt(m, a)], segs, limit)
  {
    var w := v[a := HeaderAt(m, a)];
    forall b | b in w ensures HeaderIn(m, w, b) {
      if b != a { assert HeaderIn(m, v, b); }
    }
    if a in v { assert HeaderIn(m, v, a); }
    forall i | 0 <= i < |segs| ensures segs[i].addr in w && w[segs[i].addr] == HeaderOf(segs, i) {
      assert segs[i].addr in v;
    }
  }

  // ------------------------------------------------------------------------- the stores of a merge

  /**
   The stores of a merge at `a`: size and next link there, which leave memory `m1`, then the back-link of the header
   at `next`.
   */
  ghost predicate WordsStored(m: Mem, m1: Mem, r: Mem, a: nat, size: nat, next: nat) {
    && a + HEADER <= |m| && SameOutside(m, m1, a + 8, a + 24) && Get64(m1, a + 8) == size && Get64(m1, a + 16) == next
    && if next == 0 then r == m1
       else next + HEADER <= |m| && SameOutside(m1, r, next + 24, next + 32) && Get64(r, next + 24) == a
  }

  ghost predicate MergeStored(m: Mem, r: Mem, a: nat, size: nat, next: nat) {
    exists m1 :: WordsStored(m, m1, r, a, size, next)
  }

  lemma Between(m: Mem, r: Mem, a: nat, size: nat, next: nat) returns (m1: Mem)
    requires MergeStored(m, r, a, size, next)
    ensures WordsStored(m, m1, r, a, size, next)
  {
    m1 :| WordsStored(m, m1, r, a, size, next);
  }

  lemma SizeNextRewritten(m: Mem, m1: Mem, a: nat)
    requires a + HEADER <= |m| && SameOutside(m, m1, a + 8, a + 24)
    ensures Rewritten(m, m1, a, HeaderAt(m, a).(size := Get64(m1, a + 8), next := Get64(m1, a + 16)))
  {
    SameSlice(m, m1, a + 8, a + 24, a, 7);
    SameSlice(m, m1, a + 8, a + 24, a + 24, 8);
    assert m1[a + 7] == m[a + 7] && SameOutside(m, m1, a, a + HEADER);
  }

  lemma PrevRewritten(m: Mem, r: Mem, a: nat)
    requires a + HEADER <= |m| && SameOutside(m, r, a + 24, a + 32)
    ensures Rewritten(m, r, a, HeaderAt(m, a).(prev := Get64(r, a + 24)))
  {
    SameSlice(m, r, a + 24, a + 32, a, 7);
    SameSlice(m, r, a + 24, a + 32, a + 8, 8);
    SameSlice(m, r, a + 24, a + 32, a + 16, 8);
    assert r[a + 7] == m[a + 7] && SameOutside(m, r, a, a + HEADER);
  }

  /** A back-link is stored: what is known afterwards. */
  lemma PrevViewed(m: Mem, r: Mem, v: Headers, a: nat, prev: nat) returns (v': Headers)
    requires Shows(m, v) && a in v && a + HEADER <= |m| && SameOutside(m, r, a + 24, a + 32) && Get64(r, a + 24) == prev
    ensures |r| == |m| && Shows(r, v') && Updated(v, v', a, v[a].(prev := prev))
  {
    assert HeaderIn(m, v, a);
    PrevRewritten(m, r, a);
    v' := Rewrote(m, v, r, a, v[a].(prev := prev));
  }

  /** The stores of a merge at a known header: what is known afterwards. */
  lemma MergeViewed(m: Mem, m1: Mem, r: Mem, v: Headers, a: nat, size: nat, next: nat)
      returns (v1: Headers, v2: Headers)
    requires Shows(m, v) && a in v && (next != 0 ==> next in v && Apart(a, next))
    requires WordsStored(m, m1, r, a, size, next)
    ensures |r| == |m| && Shows(r, v2) && Updated(v, v1, a, v[a].(size := size, next := next))
    ensures (next == 0 ==> v2 == v1) && (next != 0 ==> Updated(v1, v2, next, v[next].(prev := a)))
  {
    assert HeaderIn(m, v, a);
    SizeNextRewritten(m, m1, a);
    v1 := Rewrote(m, v, m1, a, v[a].(size := size, next := next));
    if next == 0 {
      v2 := v1;
    } else {
      assert next in v1 && v1[next] == v[next];
      v2 := PrevViewed(m1, r, v1, next, a);
    }
  }

  /** A merge of two segments of the chain. */
  lemma TakenOver(v: Headers, v1: Headers, v2: Headers, segs: seq<Seg>, j: nat, k: nat, limit: nat)
    requires Linked(v, segs, limit) && j < k < |segs| && limit < TWO63
    requires var a, size, next := segs[j].addr, Sum64(segs[j].size, segs[k].size), NextAddr(segs, k);
             && a in v && Updated(v, v1, a, v[a].(size := size, next := next)) && (next != 0 ==> next in v)
             && (next == 0 ==> v2 == v1) && (next != 0 ==> Updated(v1, v2, next, v[next].(prev := a)))
    ensures Linked(v2, Absorb(segs, j, k), limit)
  {
    NextBelow(v, segs, k, limit);
    assert v[segs[j].addr] == HeaderOf(segs, j);
    assert k + 1 < |segs| ==> v[segs[k + 1].addr] == HeaderOf(segs, k + 1);
    assert segs[j].addr + segs[j].size <= segs[k].addr;
    AbsorbLinked(v, v1, v2, segs, j, k, limit);
  }

  /** The bytes that a merge of two segments of the chain writes are in headers, which are headers afterwards too. */
  lemma MergeBytes(m: Mem, m1: Mem, r: Mem, segs: seq<Seg>, j: nat, k: nat, size: nat)
    requires j < k < |segs| && WordsStored(m, m1, r, segs[j].addr, size, NextAddr(segs, k))
    ensures OnlyHeaders(m, r, segs) && OnlyHeaders(m, r, Absorb(segs, j, k))
  {
    var t, b := Absorb(segs, j, k), if k + 1 < |segs| then k + 1 else j;
    OnlyTwoWritten(m, m1, r, segs[j].addr, size, NextAddr(segs, k), segs[b].addr);
    TwoHeaders(m, r, segs, j, b);
    TwoHeaders(m, r, t, j, if k + 1 < |segs| then j + 1 else j);
  }

  lemma OnlyTwoWritten(m: Mem, m1: Mem, r: Mem, a: nat, size: nat, next: nat, b: nat)
    requires WordsStored(m, m1, r, a, size, next) && (next != 0 ==> b == next)
    ensures OnlyTwo(m, r, a, b)
  {
  }

  // ------------------------------------------------------------------------- a merge out of the chain

  /** Stores into a place off the headers of the chain, then the back-link of the successor: the chain is relinked. */
  lemma StaleViewed(m: Mem, m1: Mem, r: Mem, v: Headers, segs: seq<Seg>, i: nat, s: nat, size: nat, next: nat)
      returns (v2: Headers)
    requires Shows(m, v) && Linked(v, segs, |m|) && i < |segs| && next == NextAddr(segs, i)
    requires WordsStored(m, m1, r, s, size, next) && OffHeaders(segs, s + 8, 16)
    ensures |r| == |m| && Shows(r, v2) && Linked(v2, Relinked(segs, i, s), |m|)
  {
    OffStored(m, m1, segs, s);
    PruneShows(m, m1, v, segs, |m|);
    var w := Known(v, segs);
    NextBelow(w, segs, i, |m|);
    if i + 1 == |segs| {
      v2 := w;
    } else {
      assert segs[i + 1].addr in w && w[segs[i + 1].addr] == HeaderOf(segs, i + 1);
      v2 := PrevViewed(m1, r, w, next, s);
      SegLinked(w, v2, segs, i + 1, segs[i + 1].(prev := s), |m|);
    }
  }

  lemma OffStored(m: Mem, m1: Mem, segs: seq<Seg>, s: nat)
    requires SameOutside(m, m1, s + 8, s + 24) && OffHeaders(segs, s + 8, 16)
    ensures forall x :: 0 <= x < |m| && InHeader(segs, x) ==> m1[x] == m[x]
  {
  }

  // ------------------------------------------------------------------------- the free bit

  /** The free bit that the code reads in a header at `a`, whatever is there. */
  predicate FreeBit(m: Mem, a: nat)
    requires a + HEADER <= |m|
  {
    LowBit(m[a + 7])
  }

  /** The first segment whose header has this byte; past the end if there is none. */
  function Cover(segs: seq<Seg>, x: nat, from: nat): (k: nat)
    requires from <= |segs|
    ensures from <= k <= |segs| && (k < |segs| ==> segs[k].addr <= x < segs[k].addr + HEADER)
    ensures forall j :: from <= j < k ==> !(segs[j].addr <= x < segs[j].addr + HEADER)
    decreases |segs| - from
  {
    if from == |segs| || segs[from].addr <= x < segs[from].addr + HEADER then from else Cover(segs, x, from + 1)
  }

  /** The free bit at `s` once the headers of the chain are stored, from the chain or from memory as it is. */
  predicate BitAfter(m: Mem, segs: seq<Seg>, s: nat)
    requires s + HEADER <= |m|
  {
    var k := Cover(segs, s + 7, 0);
    if k < |segs| then HeaderBit(HeaderOf(segs, k), s + 7 - segs[k].addr) else FreeBit(m, s)
  }

  lemma BitKnown(m: Mem, mid: Mem, segs: seq<Seg>, s: nat)
    requires Shown(mid, segs) && OnlyHeaders(m, mid, segs) && s + HEADER <= |m|
    ensures FreeBit(mid, s) == BitAfter(m, segs, s)
  {
    var k := Cover(segs, s + 7, 0);
    if k < |segs| {
      ShownAt(mid, segs, k);
      HeaderBitAt(mid, segs[k].addr, s + 7 - segs[k].addr);
    } else {
      assert !InHeader(segs, s + 7);
    }
  }

  // ------------------------------------------------------------------------- what a free leaves

  /** The chain after the first merge of a free. */
  function Joined(segs: seq<Seg>, i: nat): (t: seq<Seg>)
    requires i < |segs|
    ensures i < |t|
  {
    MergedNext(Freed(segs, i), i)
  }

  ghost predicate LinkInMemory(segs: seq<Seg>, i: nat, limit: nat) {
    i < |segs| && segs[i].prev + HEADER <= limit
  }

  /** The segment is marked free and has taken over a free successor: only headers of the new chain are written. */
  ghost predicate Released(m: Mem, segs: seq<Seg>, i: nat, mid: Mem)
    requires i < |segs|
  {
    OnlyHeaders(m, mid, Joined(segs, i)) && Shown(mid, Joined(segs, i))
  }

  /**
   The second merge of a free, over the back-link of segment `i`: the code reads a free bit where the link leads, and
   if it is set adds to the size and rewrites the next link there, whatever is there.
   */
  ghost predicate SecondMerged(m: Mem, segs: seq<Seg>, i: nat, r: Mem, t: seq<Seg>) {
    && LinkInMemory(segs, i, |m|)
    && var s := segs[i].prev;
       if s == 0 || !FreeBit(m, s) then r == m && t == segs
       else
         && t == (if BackInChain(segs, i) then Absorb(segs, IndexOf(segs, s, 0), i) else Relinked(segs, i, s))
         && MergeStored(m, r, s, Sum64(Get64(m, s + 8), segs[i].size), NextAddr(segs, i))
  }

  /** What a free leaves, over any back-link that leads to memory. */
  ghost predicate FreedOver(m: Mem, segs: seq<Seg>, i: nat, r: Mem, t: seq<Seg>)
    requires i < |segs|
  {
    exists mid :: Released(m, segs, i, mid) && SecondMerged(mid, Joined(segs, i), i, r, t)
  }

  /** The headers of the chain survive the second merge. */
  ghost predicate LinkHolds(m: Mem, segs: seq<Seg>, i: nat) {
    && LinkInMemory(segs, i, |m|)
    && (BackInChain(segs, i) || !FreeBit(m, segs[i].prev) || OffHeaders(segs, segs[i].prev + 8, 16))
  }

  /**
   The headers of the chain survive a free of segment `i`: its back-link leads into the chain, or to a clear free bit,
   or the two words written there are off the headers.
   */
  ghost predicate LinkOk(m: Mem, segs: seq<Seg>, i: nat) {
    && LinkInMemory(segs, i, |m|)
    && (|| BackInChain(segs, i)
        || !BitAfter(m, Joined(segs, i), segs[i].prev)
        || OffHeaders(Joined(segs, i), segs[i].prev + 8, 16))
  }

  /** A back-link into the chain leads to memory. */
  lemma LinkOfSpaced(m: Mem, segs: seq<Seg>, i: nat)
    requires Spaced(segs, |m|) && BackInChain(segs, i)
    ensures LinkOk(m, segs, i)
  {
    var k := if segs[i].prev == 0 then i else IndexOf(segs, segs[i].prev, 0);
    assert HEADER <= segs[k].size && segs[k].addr + segs[k].size <= |m|;
  }

  lemma JoinedSame(segs: seq<Seg>, i: nat)
    requires i < |segs|
    ensures var joined := Joined(segs, i);
            && joined[i].addr == segs[i].addr && joined[i].prev == segs[i].prev
            && (BackInChain(joined, i) <==> BackInChain(segs, i))
            && (forall k :: 0 <= k < |joined| ==> HasHeader(segs, joined[k].addr))
  {
    var joined, s := Joined(segs, i), segs[i].prev;
    forall k | 0 <= k < |joined| ensures HasHeader(segs, joined[k].addr) {
      var j := if k <= i || |joined| == |segs| then k else k + 1;
      assert segs[j].addr == joined[k].addr;
    }
    assert forall k :: 0 <= k <= i ==> joined[k].addr == segs[k].addr;
    if IndexOf(segs, s, 0) <= i { IndexOfAlike(segs, joined, s, i); }
    if IndexOf(joined, s, 0) <= i { IndexOfAlike(joined, segs, s, i); }
  }

  /** The condition before the call is the one at the second merge. */
  lemma LinkStillOk(m: Mem, segs: seq<Seg>, i: nat, mid: Mem)
    requires i < |segs| && Released(m, segs, i, mid)
    ensures LinkInMemory(segs, i, |m|) <==> LinkInMemory(Joined(segs, i), i, |mid|)
    ensures LinkOk(m, segs, i) <==> LinkHolds(mid, Joined(segs, i), i)
  {
    JoinedSame(segs, i);
    if LinkInMemory(segs, i, |m|) { BitKnown(m, mid, Joined(segs, i), segs[i].prev); }
  }

  // ------------------------------------------------------------------------- merges on the chain

  /** The stores of a merge of two segments of the chain: what is known afterwards. */
  lemma ChainMerged(m: Mem, m1: Mem, r: Mem, v: Headers, segs: seq<Seg>, j: nat, k: nat, a: nat, size: nat, next: nat)
      returns (v2: Headers)
    requires Shows(m, v) && Linked(v, segs, |m|) && |m| < TWO63 && j < k < |segs|
    requires a == segs[j].addr && size == Sum64(segs[j].size, segs[k].size) && next == NextAddr(segs, k)
    requires WordsStored(m, m1, r, a, size, next)
    ensures |r| == |m| && Shows(r, v2) && Linked(v2, Absorb(segs, j, k), |m|)
    ensures Absorb(segs, j, k)[0].addr == segs[0].addr
  {
    NextBelow(v, segs, k, |m|);
    assert segs[j].addr in v && (k + 1 < |segs| ==> segs[k + 1].addr in v && Apart(segs[j].addr, segs[k + 1].addr));
    var v1;
    v1, v2 := MergeViewed(m, m1, r, v, a, size, next);
    TakenOver(v, v1, v2, segs, j, k, |m|);
  }

  /** The chain when the header that the back-link names takes segment `i` over. */
  function PrevMergedChain(segs: seq<Seg>, i: nat): seq<Seg>
    requires i < |segs| && segs[i].prev != 0
  {
    if BackInChain(segs, i) then Absorb(segs, IndexOf(segs, segs[i].prev, 0), i) else Relinked(segs, i, segs[i].prev)
  }

  ghost predicate PrevMerged(m: Mem, segs: seq<Seg>, i: nat, r: Mem, t: seq<Seg>) {
    && LinkInMemory(segs, i, |m|) && segs[i].prev != 0 && t == PrevMergedChain(segs, i)
    && MergeStored(m, r, segs[i].prev, Sum64(Get64(m, segs[i].prev + 8), segs[i].size), NextAddr(segs, i))
  }

  lemma SizeKnown(m: Mem, v: Headers, a: nat)
    requires Shows(m, v) && a in v
    ensures a + HEADER <= |m| && Get64(m, a + 8) == v[a].size && FreeBit(m, a) == v[a].free
  {
    assert HeaderIn(m, v, a);
  }

  /** The size that a merge over a back-link into the chain stores is the sum of the two sizes. */
  lemma SumInChain(m: Mem, v: Headers, segs: seq<Seg>, i: nat, a: nat, size: nat)
    requires Shows(m, v) && Linked(v, segs, |m|) && i < |segs| && a == segs[i].prev != 0 && a + HEADER <= |m|
    requires size == Sum64(Get64(m, a + 8), segs[i].size)
    ensures BackInChain(segs, i) ==> size == Sum64(segs[IndexOf(segs, a, 0)].size, segs[i].size)
  {
    if BackInChain(segs, i) {
      var j := IndexOf(segs, a, 0);
      assert segs[j].addr in v && v[segs[j].addr] == HeaderOf(segs, j);
      SizeKnown(m, v, a);
    }
  }

  lemma PrevInChain(m: Mem, m1: Mem, r: Mem, v: Headers, segs: seq<Seg>, i: nat, a: nat, size: nat, next: nat)
      returns (v2: Headers)
    requires Shows(m, v) && Linked(v, segs, |m|) && |m| < TWO63 && BackInChain(segs, i) && a == segs[i].prev != 0
    requires next == NextAddr(segs, i) && size == Sum64(segs[IndexOf(segs, a, 0)].size, segs[i].size)
    requires WordsStored(m, m1, r, a, size, next)
    ensures |r| == |m| && PrevMergedChain(segs, i)[0].addr == segs[0].addr
    ensures Shows(r, v2) && Linked(v2, PrevMergedChain(segs, i), |m|)
  {
    v2 := ChainMerged(m, m1, r, v, segs, IndexOf(segs, a, 0), i, a, size, next);
  }

  /** The stores of a merge over a back-link: what is known afterwards, if the chain survives. */
  lemma PrevTakenOver(m: Mem, m1: Mem, r: Mem, v: Headers, segs: seq<Seg>, i: nat, a: nat, size: nat, next: nat)
      returns (v2: Headers)
    requires Shows(m, v) && Linked(v, segs, |m|) && |m| < TWO63 && LinkInMemory(segs, i, |m|)
    requires a == segs[i].prev != 0 && next == NextAddr(segs, i)
    requires BackInChain(segs, i) ==> size == Sum64(segs[IndexOf(segs, a, 0)].size, segs[i].size)
    requires WordsStored(m, m1, r, a, size, next)
    ensures |r| == |m| && PrevMergedChain(segs, i)[0].addr == segs[0].addr
    ensures BackInChain(segs, i) || OffHeaders(segs, a + 8, 16) ==>
              Shows(r, v2) && Linked(v2, PrevMergedChain(segs, i), |m|)
  {
    v2 := v;
    if BackInChain(segs, i) {
      v2 := PrevInChain(m, m1, r, v, segs, i, a, size, next);
    } else if OffHeaders(segs, a + 8, 16) {
      v2 := StaleViewed(m, m1, r, v, segs, i, a, size, next);
    }
  }

  /** Marking the segment writes a header that stays in the chain. */
  lemma MarkedInJoined(m: Mem, mid: Mem, segs: seq<Seg>, i: nat)
    requires i < |segs| && SameOutside(m, mid, segs[i].addr, segs[i].addr + HEADER)
    ensures OnlyHeaders(m, mid, Joined(segs, i))
  {
    JoinedSame(segs, i);
    TwoHeaders(m, mid, Joined(segs, i), i, i);
  }

  // ------------------------------------------------------------------------- the chain after a free or a resize

  /** The free bit that a free of segment `i` reads where its back-link leads. */
  ghost predicate FreedBit(m: Mem, segs: seq<Seg>, i: nat) {
    LinkInMemory(segs, i, |m|) && BitAfter(m, Joined(segs, i), segs[i].prev)
  }

  lemma SecondChain(mid: Mem, segs: seq<Seg>, i: nat, r: Mem, t: seq<Seg>)
    requires Shown(mid, segs) && i < |segs| && SecondMerged(mid, segs, i, r, t)
    ensures t == if BackInChain(segs, i) then MergedPrev(segs, i)
                 else if FreeBit(mid, segs[i].prev) then Relinked(segs, i, segs[i].prev) else segs
  {
    if BackInChain(segs, i) && segs[i].prev != 0 {
      var v :| Shows(mid, v) && Linked(v, segs, |mid|);
      var j := IndexOf(segs, segs[i].prev, 0);
      assert segs[j].addr in v && v[segs[j].addr] == HeaderOf(segs, j);
      SizeKnown(mid, v, segs[j].addr);
    }
  }

  /** The chain after a free is determined by the chain and the memory before. */
  lemma FreedChainIs(m: Mem, segs: seq<Seg>, i: nat, r: Mem, t: seq<Seg>)
    requires LinkInMemory(segs, i, |m|) && FreedOver(m, segs, i, r, t)
    ensures t == FreedChain(segs, i, FreedBit(m, segs, i))
  {
    var mid :| Released(m, segs, i, mid) && SecondMerged(mid, Joined(segs, i), i, r, t);
    JoinedSame(segs, i);
    BitKnown(m, mid, Joined(segs, i), segs[i].prev);
    SecondChain(mid, Joined(segs, i), i, r, t);
  }

  // ------------------------------------------------------------------------- the bytes after a free

  /** Over a back-link into the chain a free writes only headers. */
  lemma FreedInChain(m: Mem, segs: seq<Seg>, i: nat, r: Mem, t: seq<Seg>)
    requires LinkInMemory(segs, i, |m|) && FreedOver(m, segs, i, r, t) && BackInChain(segs, i)
    ensures t == FreeChain(segs, i) && OnlyHeaders(m, r, segs)
  {
    var mid :| Released(m, segs, i, mid) && SecondMerged(mid, Joined(segs, i), i, r, t);
    JoinedSame(segs, i);
    FreedChainIs(m, segs, i, r, t);
    SecondInChain(mid, Joined(segs, i), i, r, t);
    Compose(m, mid, r, Joined(segs, i));
    HeadersOfMore(m, r, Joined(segs, i), segs);
  }

  lemma SecondInChain(mid: Mem, segs: seq<Seg>, i: nat, r: Mem, t: seq<Seg>)
    requires SecondMerged(mid, segs, i, r, t) && BackInChain(segs, i)
    ensures OnlyHeaders(mid, r, segs)
  {
    var s := segs[i].prev;
    if s != 0 && FreeBit(mid, s) {
      var size := Sum64(Get64(mid, s + 8), segs[i].size);
      var m1 := Between(mid, r, s, size, NextAddr(segs, i));
      MergeBytes(mid, m1, r, segs, IndexOf(segs, s, 0), i, size);
    }
  }

  /** Over a back-link to a clear free bit a free writes only headers. */
  lemma FreedBitClear(m: Mem, segs: seq<Seg>, i: nat, r: Mem, t: seq<Seg>)
    requires LinkInMemory(segs, i, |m|) && FreedOver(m, segs, i, r, t) && !FreedBit(m, segs, i)
    ensures OnlyHeaders(m, r, segs)
  {
    var mid :| Released(m, segs, i, mid) && SecondMerged(mid, Joined(segs, i), i, r, t);
    JoinedSame(segs, i);
    BitKnown(m, mid, Joined(segs, i), segs[i].prev);
    HeadersOfMore(m, r, Joined(segs, i), segs);
  }

  /** The two words that a merge at `s` writes, and headers of the chain, are all that changes. */
  ghost predicate WordsAndHeaders(m: Mem, r: Mem, segs: seq<Seg>, s: nat) {
    |r| == |m| && forall x :: 0 <= x < |m| && !(s + 8 <= x < s + 24) && !InHeader(segs, x) ==> r[x] == m[x]
  }

  /** The second merge over a back-link out of the chain, to a set free bit. */
  lemma SecondOut(mid: Mem, c: seq<Seg>, i: nat, r: Mem, t: seq<Seg>, s: nat) returns (m1: Mem, size: nat, next: nat)
    requires SecondMerged(mid, c, i, r, t) && !BackInChain(c, i) && s == c[i].prev && FreeBit(mid, s)
    ensures t == Relinked(c, i, s) && s + HEADER <= |mid| && next == NextAddr(c, i)
    ensures size == Sum64(Get64(mid, s + 8), c[i].size) && WordsStored(mid, m1, r, s, size, next)
  {
    size, next := Sum64(Get64(mid, s + 8), c[i].size), NextAddr(c, i);
    m1 := Between(mid, r, s, size, next);
  }

  lemma StoredWords(m: Mem, mid: Mem, c: seq<Seg>, i: nat, r: Mem, t: seq<Seg>, s: nat)
    requires OnlyHeaders(m, mid, c)
    requires SecondMerged(mid, c, i, r, t) && !BackInChain(c, i) && s == c[i].prev && FreeBit(mid, s)
    ensures WordsAndHeaders(m, r, c, s)
  {
    var m1, size, next := SecondOut(mid, c, i, r, t, s);
    forall x | 0 <= x < |m| && !(s + 8 <= x < s + 24) && !InHeader(c, x) ensures r[x] == m[x] {
      if i + 1 < |c| { assert !(c[i + 1].addr <= x < c[i + 1].addr + HEADER); }
    }
  }

  /** The size that is stored differs from what was there, in a byte that no later store touches. */
  lemma WordChanges(mid: Mem, m1: Mem, r: Mem, s: nat, y: nat, size: nat, next: nat) returns (x: nat)
    requires WordsStored(mid, m1, r, s, size, next) && size == Sum64(Get64(mid, s + 8), y) && 0 < y < TWO64
    ensures s + 8 <= x < s + 16 && x < |mid| == |r|
    ensures next == 0 || !(next + 24 <= x < next + 32) ==> r[x] != mid[x]
  {
    x := SumChanges(mid, m1, s + 8, y);
  }

  /** The byte that changes, unless it is in the header of the successor. */
  lemma SecondChanges(mid: Mem, c: seq<Seg>, i: nat, r: Mem, t: seq<Seg>, s: nat) returns (x: nat)
    requires Shown(mid, c) && SecondMerged(mid, c, i, r, t) && !BackInChain(c, i) && s == c[i].prev && FreeBit(mid, s)
    ensures s + 8 <= x < s + 16 && x < |mid| == |r|
    ensures r[x] != mid[x] || (i + 1 < |c| && c[i + 1].addr <= x < c[i + 1].addr + HEADER)
  {
    ShownAt(mid, c, i);
    var m1, size, next := SecondOut(mid, c, i, r, t, s);
    x := WordChanges(mid, m1, r, s, c[i].size, size, next);
  }

  /** If the two words are off the headers, a byte of the first one changes. */
  lemma SecondChangesOff(m: Mem, mid: Mem, c: seq<Seg>, i: nat, r: Mem, t: seq<Seg>, s: nat) returns (x: nat)
    requires OnlyHeaders(m, mid, c) && Shown(mid, c) && OffHeaders(c, s + 8, 16)
    requires SecondMerged(mid, c, i, r, t) && !BackInChain(c, i) && s == c[i].prev && FreeBit(mid, s)
    ensures s + 8 <= x < s + 16 && x < |m| == |r| && r[x] != m[x]
  {
    x := SecondChanges(mid, c, i, r, t, s);
    assert !InHeader(c, x);
  }

  /** The first word at `s` lies in the fields of a header of the chain, other than the successor's. */
  ghost predicate HitsFields(segs: seq<Seg>, i: nat, s: nat) {
    exists k :: 0 <= k < |segs| && k != i + 1 && segs[k].addr < s <= segs[k].addr + 16
  }

  /** If the first word lies in the fields of a header, that header is destroyed. */
  lemma SecondHits(mid: Mem, c: seq<Seg>, i: nat, r: Mem, t: seq<Seg>, s: nat, k: nat)
    requires Shown(mid, c) && SecondMerged(mid, c, i, r, t) && !BackInChain(c, i) && s == c[i].prev && FreeBit(mid, s)
    requires k < |c| && k != i + 1 && c[k].addr < s <= c[k].addr + 16
    ensures |r| == |mid| && c[k].addr + HEADER <= |mid| && HeaderAt(r, c[k].addr) != HeaderAt(mid, c[k].addr)
  {
    ShownAt(mid, c, k);
    var x := SecondChanges(mid, c, i, r, t, s);
    OtherHeader(c, i, k, x, |mid|);
    FieldBytesDiffer(mid, r, c[k].addr, x);
  }

  /** Relinking changes the header of the successor only. */
  lemma RelinkedHeader(c: seq<Seg>, i: nat, s: nat, k: nat)
    requires i < |c| && k < |c| && k != i + 1
    ensures HeaderOf(Relinked(c, i, s), k) == HeaderOf(c, k) && Relinked(c, i, s)[k].addr == c[k].addr
  {
  }

  lemma NotShown(mid: Mem, c: seq<Seg>, r: Mem, t: seq<Seg>, k: nat)
    requires Shown(mid, c) && k < |c| && k < |t| && t[k].addr == c[k].addr && HeaderOf(t, k) == HeaderOf(c, k)
    requires |r| == |mid| && c[k].addr + HEADER <= |mid| && HeaderAt(r, c[k].addr) != HeaderAt(mid, c[k].addr)
    ensures !Shown(r, t)
  {
    ShownAt(mid, c, k);
    if Shown(r, t) { ShownAt(r, t, k); }
  }

  // ---- the same of the whole free

  /** The memory after the first merge. */
  lemma FirstMerge(m: Mem, segs: seq<Seg>, i: nat, r: Mem, t: seq<Seg>) returns (mid: Mem)
    requires LinkInMemory(segs, i, |m|) && FreedOver(m, segs, i, r, t)
    ensures OnlyHeaders(m, mid, Joined(segs, i)) && Shown(mid, Joined(segs, i))
    ensures SecondMerged(mid, Joined(segs, i), i, r, t) && Joined(segs, i)[i].prev == segs[i].prev
    ensures FreeBit(mid, segs[i].prev) == FreedBit(m, segs, i)
    ensures BackInChain(Joined(segs, i), i) == BackInChain(segs, i)
  {
    mid :| Released(m, segs, i, mid) && SecondMerged(mid, Joined(segs, i), i, r, t);
    JoinedSame(segs, i);
    BitKnown(m, mid, Joined(segs, i), segs[i].prev);
  }

  /** A free over a back-link out of the chain writes headers of the new chain and at most those two words. */
  lemma FreedOutBytes(m: Mem, segs: seq<Seg>, i: nat, r: Mem, t: seq<Seg>)
    requires LinkInMemory(segs, i, |m|) && FreedOver(m, segs, i, r, t)
    requires !BackInChain(segs, i) && FreedBit(m, segs, i)
    ensures WordsAndHeaders(m, r, Joined(segs, i), segs[i].prev)
  {
    var mid := FirstMerge(m, segs, i, r, t);
    StoredWords(m, mid, Joined(segs, i), i, r, t, segs[i].prev);
  }

  /** If the two words are off the headers, a byte of the first one changes. */
  lemma FreedOutChanges(m: Mem, segs: seq<Seg>, i: nat, r: Mem, t: seq<Seg>) returns (x: nat)
    requires LinkInMemory(segs, i, |m|) && FreedOver(m, segs, i, r, t)
    requires !BackInChain(segs, i) && FreedBit(m, segs, i) && OffHeaders(Joined(segs, i), segs[i].prev + 8, 16)
    ensures segs[i].prev + 8 <= x < segs[i].prev + 16 && x < |m| == |r| && r[x] != m[x]
  {
    var mid := FirstMerge(m, segs, i, r, t);
    x := SecondChangesOff(m, mid, Joined(segs, i), i, r, t, segs[i].prev);
  }

  /** If the first word lies in the fields of a header, memory no longer shows the chain. */
  lemma HeaderHit(m: Mem, segs: seq<Seg>, i: nat, r: Mem, t: seq<Seg>)
    requires LinkInMemory(segs, i, |m|) && FreedOver(m, segs, i, r, t)
    requires !BackInChain(segs, i) && FreedBit(m, segs, i) && HitsFields(Joined(segs, i), i, segs[i].prev)
    ensures !Shown(r, t)
  {
    var mid := FirstMerge(m, segs, i, r, t);
    SecondHit(mid, Joined(segs, i), i, r, t, segs[i].prev);
  }

  lemma SecondHit(mid: Mem, c: seq<Seg>, i: nat, r: Mem, t: seq<Seg>, s: nat)
    requires Shown(mid, c) && SecondMerged(mid, c, i, r, t) && !BackInChain(c, i) && s == c[i].prev && FreeBit(mid, s)
    requires HitsFields(c, i, s)
    ensures !Shown(r, t)
  {
    var k :| 0 <= k < |c| && k != i + 1 && c[k].addr < s <= c[k].addr + 16;
    SecondHits(mid, c, i, r, t, s, k);
    RelinkedHeader(c, i, s, k);
    NotShown(mid, c, r, t, k);
  }

  /** A byte of a header is in no other header. */
  lemma OtherHeader(segs: seq<Seg>, i: nat, k: nat, x: nat, limit: nat)
    requires Spaced(segs, limit) && k < |segs| && k != i + 1 && segs[k].addr <= x < segs[k].addr + HEADER
    ensures i + 1 < |segs| ==> !(segs[i + 1].addr <= x < segs[i + 1].addr + HEADER)
  {
    if i + 1 < |segs| {
      assert k < i + 1 ==> segs[k].addr + segs[k].size <= segs[i + 1].addr;
      assert k > i + 1 ==> segs[i + 1].addr + segs[i + 1].size <= segs[k].addr;
    }
  }

  // ------------------------------------------------------------------------- moves

  /** Memory `r` is `m` with `size` bytes copied from `src` to `dest`. */
  ghost predicate Copied(m: Mem, r: Mem, dest: nat, src: nat, size: nat) {
    && |r| == |m| && dest + size <= |m| && src + size <= |m|
    && (forall x {:trigger r[x]} :: dest <= x < dest + size ==> r[x] == m[x - dest + src])
    && (forall x {:trigger r[x]} :: 0 <= x < |m| && !(dest <= x < dest + size) ==> r[x] == m[x])
  }

  /**
   A block is moved: another is allocated, which leaves `m0`, the bytes are copied, `m1`, and the old one is freed.
   */
  ghost predicate MovedOver(m: Mem, segs: seq<Seg>, i: nat, n: nat, m0: Mem, m1: Mem, r: Mem, u: seq<Seg>)
    requires i < |segs|
  {
    var (t, q) := AllocChain(segs, n, false);
    var k := AfterTake(segs, n, i);
    && q != 0 && OnlyHeaders(m, m0, t) && Shown(m0, t) && segs[i].size >= HEADER
    && Copied(m0, m1, q, segs[i].addr + HEADER, segs[i].size - HEADER) && Shown(m1, t)
    && LinkInMemory(t, k, |m1|) && FreedOver(m1, t, k, r, u)
  }

  lemma MovedParts(
    m: Mem, segs: seq<Seg>, i: nat, n: nat, t: seq<Seg>, q: nat, k: nat, m0: Mem, m1: Mem, r: Mem, u: seq<Seg>)
    requires i < |segs| && MovedOver(m, segs, i, n, m0, m1, r, u)
    requires (t, q) == AllocChain(segs, n, false) && k == AfterTake(segs, n, i)
    ensures q != 0 && OnlyHeaders(m, m0, t) && Shown(m0, t) && segs[i].size >= HEADER
    ensures Copied(m0, m1, q, segs[i].addr + HEADER, segs[i].size - HEADER) && Shown(m1, t)
    ensures LinkInMemory(t, k, |m1|) && FreedOver(m1, t, k, r, u)
  {
  }

  /** A block is resized: cut in place, not at all, or moved. */
  ghost predicate Resized(m: Mem, segs: seq<Seg>, i: nat, n: nat, q: nat, m0: Mem, m1: Mem, r: Mem, u: seq<Seg>)
    requires i < |segs|
  {
    if segs[i].size >= n + HEADER then
      q == segs[i].addr + HEADER && u == ShrinkChain(segs, i, n, false) && OnlyHeaders(m, r, u) && Shown(r, u)
    else
      && q == AllocChain(segs, n, false).1
      && if q == 0 then r == m && u == segs else MovedOver(m, segs, i, n, m0, m1, r, u)
  }

  /** The headers of the chain survive the free of a move. */
  ghost predicate ResizeHolds(segs: seq<Seg>, i: nat, n: nat, m1: Mem)
    requires i < |segs|
  {
    segs[i].size < n + HEADER && AllocChain(segs, n, false).1 != 0 ==>
      LinkOk(m1, AllocChain(segs, n, false).0, AfterTake(segs, n, i))
  }

  lemma ResizedChainIs(m: Mem, segs: seq<Seg>, i: nat, n: nat, q: nat, m0: Mem, m1: Mem, r: Mem, u: seq<Seg>)
      returns (bit: bool)
    requires i < |segs| && Resized(m, segs, i, n, q, m0, m1, r, u)
    ensures (u, q) == ReallocChain(segs, i, n, false, bit)
  {
    bit := FreedBit(m1, AllocChain(segs, n, false).0, AfterTake(segs, n, i));
    if segs[i].size < n + HEADER && q != 0 {
      FreedChainIs(m1, AllocChain(segs, n, false).0, AfterTake(segs, n, i), r, u);
    }
  }
}
