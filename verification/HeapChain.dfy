/**
 The kernel heap's chain of segments, and what splitting a segment and merging two do to it.

 Two facts about a chain are kept apart: that its segments tile the heap, and that its back-links are exact.
 */
module HeapChain {
  import opened HeapMemory

  const MIN_CAPACITY := 1

  /** A segment of the chain; `prev` is the back-link its header holds, right or wrong. */
  datatype Seg = Seg(addr: nat, size: nat, free: bool, prev: nat)

  function NextAddr(segs: seq<Seg>, i: nat): nat {
    if i + 1 < |segs| then segs[i + 1].addr else 0
  }

  function HeaderOf(segs: seq<Seg>, i: nat): Header
    requires i < |segs|
  {
    Header(true, segs[i].free, segs[i].size, NextAddr(segs, i), segs[i].prev)
  }

  /** Segments lie one behind the other below `limit`, each with room for its header. */
  ghost predicate Spaced(segs: seq<Seg>, limit: nat) {
    && segs != []
    && (forall i :: 0 <= i < |segs| ==>
          0 < segs[i].addr && HEADER <= segs[i].size && segs[i].addr + segs[i].size <= limit)
    && (forall i, j :: 0 <= i < j < |segs| ==> segs[i].addr + segs[i].size <= segs[j].addr)
  }

  /** Following the next links from the first header visits exactly these segments. */
  ghost predicate Linked(v: Headers, segs: seq<Seg>, limit: nat) {
    && Spaced(segs, limit)
    && (forall i {:trigger segs[i].addr in v} {:trigger HeaderOf(segs, i)} ::
          0 <= i < |segs| ==> segs[i].addr in v && v[segs[i].addr] == HeaderOf(segs, i))
  }

  /** A segment has room for its header and ends where its successor starts, or at `end`. */
  ghost predicate Meets(segs: seq<Seg>, i: nat, end: nat) {
    && i < |segs| && segs[i].size >= HEADER
    && segs[i].addr + segs[i].size == if i + 1 < |segs| then segs[i + 1].addr else end
  }

  /** The segments cover `base..end` without gap or overlap. */
  ghost predicate Tiled(segs: seq<Seg>, base: nat, end: nat) {
    && segs != [] && segs[0].addr == base
    && (forall i {:trigger Meets(segs, i, end)} :: 0 <= i < |segs| ==> Meets(segs, i, end))
  }

  ghost predicate BackAt(segs: seq<Seg>, i: nat) {
    i < |segs| && segs[i].prev == if i == 0 then 0 else segs[i - 1].addr
  }

  /** Every header names its predecessor, the first names none. */
  ghost predicate BackExact(segs: seq<Seg>) {
    forall i {:trigger BackAt(segs, i)} :: 0 <= i < |segs| ==> BackAt(segs, i)
  }

  ghost predicate FreePair(segs: seq<Seg>, i: nat) {
    i + 1 < |segs| && segs[i].free && segs[i + 1].free
  }

  ghost predicate NoAdjacentFree(segs: seq<Seg>) {
    forall i: nat {:trigger FreePair(segs, i)} :: !FreePair(segs, i)
  }

  lemma {:induction false} TiledOrdered(segs: seq<Seg>, base: nat, end: nat, i: nat, j: nat)
    requires Tiled(segs, base, end) && i < j < |segs|
    ensures segs[i].addr + segs[i].size <= segs[j].addr
    decreases j
  {
    assert Meets(segs, j - 1, end);
    if i + 1 < j { TiledOrdered(segs, base, end, i, j - 1); }
  }

  /** Every segment of a tiling lies in the heap. */
  lemma TiledInside(segs: seq<Seg>, base: nat, end: nat, i: nat)
    requires Tiled(segs, base, end) && i < |segs|
    ensures base <= segs[i].addr && segs[i].addr + segs[i].size <= end && segs[i].size >= HEADER
  {
    assert Meets(segs, i, end) && Meets(segs, |segs| - 1, end);
    if i > 0 { TiledOrdered(segs, base, end, 0, i); }
    if i < |segs| - 1 { TiledOrdered(segs, base, end, i, |segs| - 1); }
  }

  function SumSizes(segs: seq<Seg>): nat {
    if segs == [] then 0 else SumSizes(segs[..|segs| - 1]) + segs[|segs| - 1].size
  }

  /** The sizes of a tiling add up to the heap. */
  lemma {:induction false} TiledSum(segs: seq<Seg>, base: nat, end: nat)
    requires Tiled(segs, base, end)
    ensures SumSizes(segs) == end - base
    decreases |segs|
  {
    var init, last := segs[..|segs| - 1], segs[|segs| - 1];
    assert Meets(segs, |segs| - 1, end);
    if init == [] {
      assert SumSizes(init) == 0;
    } else {
      forall i | 0 <= i < |init| ensures Meets(init, i, last.addr) {
        assert Meets(segs, i, end);
      }
      TiledSum(init, base, last.addr);
    }
  }

  // ------------------------------------------------------------------------- splitting

  /** The rest would hold a header and two bytes; the code compares as a signed number. */
  predicate CanSplit(have: nat, size: nat) {
    have - (size + HEADER) >= MIN_CAPACITY * 2
  }

  /** What a split does to the chain, with the back-link of the old successor repaired or not. */
  function SplitWith(segs: seq<Seg>, i: nat, size: nat, repaired: bool): (t: seq<Seg>)
    requires i < |segs| && size <= segs[i].size
    ensures |t| == |segs| + 1
  {
    seq(|segs| + 1, k requires 0 <= k <= |segs| =>
      if k < i then segs[k]
      else if k == i then segs[i].(size := size)
      else if k == i + 1 then Seg(segs[i].addr + size, segs[i].size - size, segs[i].free, segs[i].addr)
      else if k == i + 2 && repaired then segs[k - 1].(prev := segs[i].addr + size)
      else segs[k - 1])
  }

  /** The split of the code, which leaves the back-link of the old successor as it was. */
  function Split(segs: seq<Seg>, i: nat, size: nat): (t: seq<Seg>)
    requires i < |segs| && size <= segs[i].size
  {
    SplitWith(segs, i, size, false)
  }

  ghost predicate Splittable(segs: seq<Seg>, i: nat, size: nat) {
    i < |segs| && HEADER <= size && CanSplit(segs[i].size, size)
  }

  /** After a split, segments are still one behind the other. */
  lemma SplitOrdered(segs: seq<Seg>, i: nat, size: nat, repaired: bool, limit: nat, j: nat, k: nat)
    requires Spaced(segs, limit) && Splittable(segs, i, size) && j < k <= |segs|
    ensures var t := SplitWith(segs, i, size, repaired); t[j].addr + t[j].size <= t[k].addr
  {
    if j <= i && k > i + 1 {
      assert segs[j].addr + segs[j].size <= segs[k - 1].addr;
    }
  }

  lemma SplitSpaced(segs: seq<Seg>, i: nat, size: nat, repaired: bool, limit: nat)
    requires Spaced(segs, limit) && Splittable(segs, i, size)
    ensures Spaced(SplitWith(segs, i, size, repaired), limit)
  {
    var t := SplitWith(segs, i, size, repaired);
    forall k | 0 <= k < |t| ensures 0 < t[k].addr && HEADER <= t[k].size && t[k].addr + t[k].size <= limit {
      assert segs[if k <= i then k else k - 1].addr > 0;
    }
    forall j, k | 0 <= j < k < |t| ensures t[j].addr + t[j].size <= t[k].addr {
      SplitOrdered(segs, i, size, repaired, limit, j, k);
    }
  }

  /** The new headers turn the chain into the split chain. */
  lemma SplitLinked(v: Headers, v1: Headers, v2: Headers, segs: seq<Seg>, i: nat, size: nat, limit: nat)
    requires Linked(v, segs, limit) && Splittable(segs, i, size)
    requires var a, b := segs[i].addr, segs[i].addr + size;
             && Updated(v, v1, b, Header(true, segs[i].free, segs[i].size - size, NextAddr(segs, i), a))
             && Updated(v1, v2, a, HeaderOf(segs, i).(size := size, next := b))
    ensures Linked(v2, Split(segs, i, size), limit)
  {
    var a, b, t := segs[i].addr, segs[i].addr + size, Split(segs, i, size);
    SplitSpaced(segs, i, size, false, limit);
    forall k | 0 <= k < |t| ensures t[k].addr in v2 && v2[t[k].addr] == HeaderOf(t, k) {
      if k < i || k > i + 1 {
        SplitElsewhere(segs, i, size, k, limit);
        assert t[k].addr in v && Apart(t[k].addr, b) && t[k].addr in v1 && Apart(t[k].addr, a);
      } else if k == i + 1 {
        assert b in v1 && Apart(b, a);
        assert NextAddr(t, k) == NextAddr(segs, i);
      }
    }
  }

  /** All other segments stay what they are, apart from the two that a split writes. */
  lemma SplitElsewhere(segs: seq<Seg>, i: nat, size: nat, k: nat, limit: nat)
    requires Spaced(segs, limit) && Splittable(segs, i, size)
    requires k <= |segs| && (k < i || k > i + 1)
    ensures var t, old_ := Split(segs, i, size), if k < i then k else k - 1;
            && t[k] == segs[old_] && NextAddr(t, k) == NextAddr(segs, old_)
            && Apart(t[k].addr, segs[i].addr) && Apart(t[k].addr, segs[i].addr + size)
  {
  }

  /** Setting the flag or the back-link of one segment changes one header of the chain. */
  lemma SegLinked(v: Headers, v': Headers, segs: seq<Seg>, k: nat, seg: Seg, limit: nat)
    requires Linked(v, segs, limit) && k < |segs| && seg.addr == segs[k].addr && seg.size == segs[k].size
    requires Updated(v, v', seg.addr, HeaderOf(segs, k).(free := seg.free, prev := seg.prev))
    ensures Linked(v', segs[k := seg], limit)
  {
    var t := segs[k := seg];
    forall j | 0 <= j < |t| ensures t[j].addr in v' && v'[t[j].addr] == HeaderOf(t, j) {
      assert segs[j].addr in v && (j != k ==> Apart(segs[j].addr, segs[k].addr));
    }
  }

  /** A split always keeps the forward tiling. */
  lemma SplitTiled(segs: seq<Seg>, i: nat, size: nat, repaired: bool, base: nat, end: nat)
    requires Tiled(segs, base, end) && Splittable(segs, i, size)
    ensures Tiled(SplitWith(segs, i, size, repaired), base, end)
  {
    var t := SplitWith(segs, i, size, repaired);
    forall k | 0 <= k < |t| ensures Meets(t, k, end) {
      assert Meets(segs, if k <= i then k else k - 1, end);
    }
  }

  /** The code's split keeps the back-links exact exactly if the segment has no successor; a repairing one always. */
  lemma SplitBackExact(segs: seq<Seg>, i: nat, size: nat, repaired: bool)
    requires BackExact(segs) && Splittable(segs, i, size)
    ensures BackExact(SplitWith(segs, i, size, repaired)) <==> repaired || i == |segs| - 1
  {
    var t := SplitWith(segs, i, size, repaired);
    if repaired || i == |segs| - 1 {
      forall k | 0 <= k < |t| ensures BackAt(t, k) {
        assert BackAt(segs, if k <= i then k else k - 1);
      }
    } else {
      assert BackAt(segs, i + 1) && !BackAt(t, i + 2);
    }
  }

  // ------------------------------------------------------------------------- merging

  /** Segment `j` takes over segment `k` and its place in the chain; everything between the two leaves the chain. */
  function Absorb(segs: seq<Seg>, j: nat, k: nat): (t: seq<Seg>)
    requires j < k < |segs|
    ensures |t| == |segs| - (k - j)
  {
    seq(|segs| - (k - j), i requires 0 <= i < |segs| - (k - j) =>
      if i < j then segs[i]
      else if i == j then segs[j].(size := segs[j].size + segs[k].size)
      else if i == j + 1 then segs[k + 1].(prev := segs[j].addr)
      else segs[i + (k - j)])
  }

  /** After a merge, segments are still one behind the other. */
  lemma AbsorbOrdered(segs: seq<Seg>, j: nat, k: nat, limit: nat, x: nat, y: nat)
    requires Spaced(segs, limit) && j < k < |segs| && x < y < |segs| - (k - j)
    ensures var t := Absorb(segs, j, k); t[x].addr + t[x].size <= t[y].addr
  {
    var x', y' := if x < j then x else x + (k - j), if y <= j then y else y + (k - j);
    assert segs[x'].addr + segs[x'].size <= segs[y'].addr;
    assert segs[j].addr + segs[j].size <= segs[k].addr;
  }

  lemma AbsorbSpaced(segs: seq<Seg>, j: nat, k: nat, limit: nat)
    requires Spaced(segs, limit) && j < k < |segs|
    ensures Spaced(Absorb(segs, j, k), limit)
  {
    var t := Absorb(segs, j, k);
    assert segs[j].addr + segs[j].size <= segs[k].addr;
    forall x | 0 <= x < |t| ensures 0 < t[x].addr && HEADER <= t[x].size && t[x].addr + t[x].size <= limit {
      assert segs[if x <= j then x else x + (k - j)].addr > 0;
    }
    forall x, y | 0 <= x < y < |t| ensures t[x].addr + t[x].size <= t[y].addr {
      AbsorbOrdered(segs, j, k, limit, x, y);
    }
  }

  /** The header stores of a merge turn the chain into the merged chain. */
  lemma AbsorbLinked(v: Headers, v1: Headers, v2: Headers, segs: seq<Seg>, j: nat, k: nat, limit: nat)
    requires Linked(v, segs, limit) && j < k < |segs|
    requires var a, c := segs[j].addr, NextAddr(segs, k);
             && Updated(v, v1, a, HeaderOf(segs, j).(size := segs[j].size + segs[k].size, next := c))
             && (c == 0 ==> v2 == v1)
             && (c != 0 ==> Updated(v1, v2, c, HeaderOf(segs, k + 1).(prev := a)))
    ensures Linked(v2, Absorb(segs, j, k), limit)
  {
    var a, c, t := segs[j].addr, NextAddr(segs, k), Absorb(segs, j, k);
    AbsorbSpaced(segs, j, k, limit);
    forall i | 0 <= i < |t| ensures t[i].addr in v2 && v2[t[i].addr] == HeaderOf(t, i) {
      AbsorbElsewhere(segs, j, k, i, limit);
      if i < j || i > j + 1 {
        assert t[i].addr in v && Apart(t[i].addr, a) && t[i].addr in v1;
        assert c != 0 ==> Apart(t[i].addr, c);
      } else if i == j {
        assert a in v1 && (c != 0 ==> Apart(a, c));
      } else {
        assert c in v2 && v2[c] == HeaderOf(segs, k + 1).(prev := a);
      }
    }
  }

  /** All other segments stay what they are, apart from the two that a merge writes. */
  lemma AbsorbElsewhere(segs: seq<Seg>, j: nat, k: nat, i: nat, limit: nat)
    requires Spaced(segs, limit) && j < k < |segs| && i < |segs| - (k - j)
    ensures var t, old_ := Absorb(segs, j, k), if i <= j then i else i + (k - j);
            && t[i].addr == segs[old_].addr
            && NextAddr(t, i) == (if i == j then NextAddr(segs, k) else NextAddr(segs, old_))
            && (i < j || i > j + 1 ==> t[i] == segs[old_])
            && (i != j ==> Apart(t[i].addr, segs[j].addr))
            && (i != j + 1 && k + 1 < |segs| ==> Apart(t[i].addr, segs[k + 1].addr))
  {
  }

  /** A merge keeps the tiling exactly if the two segments are neighbours. */
  lemma AbsorbTiled(segs: seq<Seg>, j: nat, k: nat, base: nat, end: nat)
    requires Tiled(segs, base, end) && j < k < |segs|
    ensures Tiled(Absorb(segs, j, k), base, end) <==> k == j + 1
  {
    var t := Absorb(segs, j, k);
    assert Meets(segs, j, end) && Meets(segs, j + 1, end) && Meets(segs, k, end);
    if k == j + 1 {
      forall i | 0 <= i < |t| ensures Meets(t, i, end) {
        assert Meets(segs, if i <= j then i else i + 1, end);
      }
    } else {
      TiledOrdered(segs, base, end, j + 1, k);
      assert !Meets(t, j, end);
    }
  }

  lemma AbsorbBackExact(segs: seq<Seg>, j: nat)
    requires BackExact(segs) && j + 1 < |segs|
    ensures BackExact(Absorb(segs, j, j + 1))
  {
    var t := Absorb(segs, j, j + 1);
    forall i | 0 <= i < |t| ensures BackAt(t, i) {
      assert BackAt(segs, if i <= j then i else i + 1);
    }
  }

  /** Marking a segment moves no link. */
  lemma FlagBackExact(segs: seq<Seg>, i: nat, free: bool)
    requires BackExact(segs) && i < |segs|
    ensures BackExact(segs[i := segs[i].(free := free)])
  {
    var t := segs[i := segs[i].(free := free)];
    forall k | 0 <= k < |t| ensures BackAt(t, k) {
      assert BackAt(segs, k);
    }
  }
}
